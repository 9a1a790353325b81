/** A device tree blob with its recorded block positions, and what moving and overwriting bytes does to the blocks. */
module FdtBlob {
  import opened Basics
  import opened FdtFormat
  import opened FdtSpec
  import opened FdtSplice

  const HEADER := 40

  /** struct fdt: the buffer (header included) and what was recorded from the header. */
  datatype Blob = Blob(raw: seq<byte>, len: nat, used: nat, structure: nat, structureLen: nat,
                       strings: nat, stringsLen: nat, reservations: nat)

  function View(b: Blob): Fdt {
    Fdt(b.raw, b.len, b.structure, b.strings, b.stringsLen)
  }

  /** Offsets of the header fields that the editor maintains. */
  const TOTALSIZE := 4
  const OFF_DT_STRUCT := 8
  const OFF_DT_STRINGS := 12
  const OFF_MEM_RSVMAP := 16
  const SIZE_DT_STRINGS := 32
  const SIZE_DT_STRUCT := 36

  predicate IsField(i: nat) {
    || i == TOTALSIZE || i == OFF_DT_STRUCT || i == OFF_DT_STRINGS || i == OFF_MEM_RSVMAP
    || i == SIZE_DT_STRINGS || i == SIZE_DT_STRUCT
  }

  /** struct fdt_header */
  datatype Fields = Fields(magic: nat, totalsize: nat, offStruct: nat, offStrings: nat, offReservations: nat,
                           version: nat, lastCompatible: nat, bootCpu: nat, sizeStrings: nat, sizeStruct: nat)

  /** The header at the start of a buffer. */
  function Header(raw: seq<byte>): Fields
    decreases |raw|
  {
    if |raw| > HEADER then Header(raw[..HEADER])
    else Fields(Word(raw, 0), Word(raw, 4), Word(raw, 8), Word(raw, 12), Word(raw, 16),
                Word(raw, 20), Word(raw, 24), Word(raw, 28), Word(raw, 32), Word(raw, 36))
  }

  function SetField(h: Fields, i: nat, n: nat): Fields {
    if i == TOTALSIZE then h.(totalsize := n)
    else if i == OFF_DT_STRUCT then h.(offStruct := n)
    else if i == OFF_DT_STRINGS then h.(offStrings := n)
    else if i == OFF_MEM_RSVMAP then h.(offReservations := n)
    else if i == SIZE_DT_STRINGS then h.(sizeStrings := n)
    else if i == SIZE_DT_STRUCT then h.(sizeStruct := n)
    else h
  }

  /** The header agrees with the recorded positions and lengths. */
  predicate HeaderOk(b: Blob) {
    var h := Header(b.raw);
    && h.totalsize == b.len
    && h.offStruct == b.structure && h.sizeStruct == b.structureLen
    && h.offStrings == b.strings && h.sizeStrings == b.stringsLen
    && h.offReservations == b.reservations
  }

  /** What of the header no edit touches. */
  function Identity(b: Blob): (nat, nat, nat, nat) {
    var h := Header(b.raw);
    (h.magic, h.version, h.lastCompatible, h.bootCpu)
  }

  /** Buffers that agree on a stretch of bytes agree on each part of it. */
  lemma SamePart(s: seq<byte>, t: seq<byte>, a: nat, b: nat, i: nat, j: nat)
    requires a <= i <= j <= b <= |s| && b <= |t| && s[a..b] == t[a..b]
    ensures s[i..j] == t[i..j]
  {
    forall k | i <= k < j
      ensures s[k] == t[k]
    {
      assert s[k] == s[a..b][k - a] && t[k] == t[a..b][k - a];
    }
  }

  /** Two stretches of bytes do not overlap. */
  predicate Clear(p: nat, l: nat, q: nat, m: nat) {
    p + l <= q || q + m <= p
  }

  /** The header and the three blocks lie apart in the used part of the buffer; `rsv` is the length of the reservation block. */
  predicate Blocks(b: Blob, rsv: nat) {
    && HEADER <= b.structure && b.structure + b.structureLen <= b.used
    && HEADER <= b.strings && b.strings + b.stringsLen <= b.used
    && HEADER <= b.reservations && b.reservations + rsv <= b.used
    && b.used <= b.len == |b.raw| < WORD_SPACE
    && Clear(b.structure, b.structureLen, b.strings, b.stringsLen)
    && Clear(b.structure, b.structureLen, b.reservations, rsv)
    && Clear(b.strings, b.stringsLen, b.reservations, rsv)
  }

  predicate Layout(b: Blob, rsv: nat) {
    Blocks(b, rsv) && HeaderOk(b)
  }

  function Block(raw: seq<byte>, p: nat, l: nat): (r: seq<byte>)
    requires p + l <= |raw|
    ensures |r| == l
  {
    raw[p..p + l]
  }

  function StructBytes(b: Blob): seq<byte>
    requires b.structure + b.structureLen <= |b.raw|
  {
    Block(b.raw, b.structure, b.structureLen)
  }

  function StringBytes(b: Blob): seq<byte>
    requires b.strings + b.stringsLen <= |b.raw|
  {
    Block(b.raw, b.strings, b.stringsLen)
  }

  function ReservationBytes(b: Blob, rsv: nat): seq<byte>
    requires b.reservations + rsv <= |b.raw|
  {
    Block(b.raw, b.reservations, rsv)
  }

  function Zeros(n: nat): (r: seq<byte>)
    ensures |r| == n
  {
    seq(n, _ => 0)
  }

  // Overwriting.

  /** `s` with the bytes from `i` on overwritten by `x`. */
  function Write(s: seq<byte>, i: nat, x: seq<byte>): (r: seq<byte>)
    requires i + |x| <= |s|
    ensures |r| == |s|
  {
    s[..i] + x + s[i + |x|..]
  }

  /** Overwriting changes no stretch of bytes that lies clear of it. */
  lemma WriteClear(s: seq<byte>, i: nat, x: seq<byte>, p: nat, l: nat)
    requires i + |x| <= |s| && p + l <= |s| && Clear(i, |x|, p, l)
    ensures Block(Write(s, i, x), p, l) == Block(s, p, l)
  {
  }

  lemma WriteInside(s: seq<byte>, i: nat, x: seq<byte>, p: nat, l: nat)
    requires p <= i && i + |x| <= p + l <= |s|
    ensures Block(Write(s, i, x), p, l) == Write(Block(s, p, l), i - p, x)
  {
  }

  /** The word at `j`, after one is stored at `i`. */
  lemma StoreWord(s: seq<byte>, i: nat, n: nat, j: nat)
    requires i + 4 <= |s| && n < WORD_SPACE && j + 4 <= |s| && (i == j || Clear(i, 4, j, 4))
    ensures Word(Write(s, i, BE32(n)), j) == if i == j then n else Word(s, j)
  {
    var t := Write(s, i, BE32(n));
    if i == j {
      WordOfBE32(t, i, n);
    } else {
      assert At(t, j) == At(s, j) && At(t, j + 1) == At(s, j + 1) && At(t, j + 2) == At(s, j + 2) && At(t, j + 3) == At(s, j + 3);
    }
  }

  lemma StoreInHeader(s: seq<byte>, i: nat, n: nat)
    requires |s| == HEADER && IsField(i) && n < WORD_SPACE
    ensures Header(Write(s, i, BE32(n))) == SetField(Header(s), i, n)
  {
    StoreWord(s, i, n, 0);
    StoreWord(s, i, n, 4);
    StoreWord(s, i, n, 8);
    StoreWord(s, i, n, 12);
    StoreWord(s, i, n, 16);
    StoreWord(s, i, n, 20);
    StoreWord(s, i, n, 24);
    StoreWord(s, i, n, 28);
    StoreWord(s, i, n, 32);
    StoreWord(s, i, n, 36);
  }

  lemma HeaderPrefix(s: seq<byte>)
    requires HEADER <= |s|
    ensures Header(s) == Header(s[..HEADER])
  {
    assert s[..HEADER] == s || |s| > HEADER;
  }

  lemma WritePrefix(s: seq<byte>, i: nat, x: seq<byte>, k: nat)
    requires i + |x| <= k <= |s|
    ensures Write(s, i, x)[..k] == Write(s[..k], i, x) && Write(s, i, x)[k..] == s[k..]
  {
  }

  /** Storing a field of the header changes nothing else. */
  lemma StoreField(s: seq<byte>, i: nat, n: nat)
    requires HEADER <= |s| && IsField(i) && n < WORD_SPACE
    ensures Header(Write(s, i, BE32(n))) == SetField(Header(s), i, n)
    ensures Write(s, i, BE32(n))[HEADER..] == s[HEADER..]
  {
    WritePrefix(s, i, BE32(n), HEADER);
    HeaderPrefix(s);
    HeaderPrefix(Write(s, i, BE32(n)));
    StoreInHeader(s[..HEADER], i, n);
  }

  /** Buffers that begin with the same bytes have the same header. */
  lemma HeaderSame(s: seq<byte>, t: seq<byte>)
    requires HEADER <= |s| && HEADER <= |t| && s[..HEADER] == t[..HEADER]
    ensures Header(s) == Header(t)
  {
    HeaderPrefix(s);
    HeaderPrefix(t);
  }

  /** Overwriting past the header. */
  lemma WriteKeepsHeader(s: seq<byte>, i: nat, x: seq<byte>)
    requires HEADER <= i && i + |x| <= |s|
    ensures Header(Write(s, i, x)) == Header(s)
  {
    assert Write(s, i, x)[..HEADER] == s[..HEADER];
    HeaderSame(s, Write(s, i, x));
  }

  /** Overwriting within a replaced part. */
  lemma WriteInSplice(s: seq<byte>, o: nat, d: nat, x: seq<byte>, i: nat, w: seq<byte>)
    requires o + d <= |s| && i + |w| <= |x|
    ensures Write(Splice(s, o, d, x), o + i, w) == Splice(s, o, d, Write(x, i, w))
  {
  }

  // Moving.

  /** A recorded offset, after `n` bytes are inserted at `at`. */
  function Move(p: nat, at: nat, n: nat): nat {
    if p >= at then p + n else p
  }

  /** Inserting a multiple of eight bytes keeps every block's alignment. */
  lemma MoveAligned(p: nat, at: nat, n: nat)
    requires n % 8 == 0
    ensures Move(p, at, n) % 8 == p % 8
  {
  }

  /** `n` zero bytes have been inserted at `at`; the header, and what lies beyond the used part, are not considered. */
  predicate Inserted(raw: seq<byte>, raw': seq<byte>, used: nat, at: nat, n: nat)
    decreases |raw|
  {
    && HEADER <= at <= used <= |raw| && used + n <= |raw'|
    && if used < |raw| then Inserted(raw[..used], raw', used, at, n)
       else raw'[HEADER..used + n] == raw[HEADER..at] + Zeros(n) + raw[at..]
  }

  lemma InsertedIs(raw: seq<byte>, raw': seq<byte>, used: nat, at: nat, n: nat)
    requires HEADER <= at <= used <= |raw| && used + n <= |raw'|
    ensures Inserted(raw, raw', used, at, n) <==> raw'[HEADER..used + n] == raw[HEADER..at] + Zeros(n) + raw[at..used]
  {
    var u := raw[..used];
    assert u[HEADER..at] == raw[HEADER..at] && u[at..] == raw[at..used];
    if used == |raw| {
      assert raw[at..used] == raw[at..];
    } else {
      assert Inserted(u, raw', used, at, n) <==> raw'[HEADER..used + n] == u[HEADER..at] + Zeros(n) + u[at..];
    }
  }

  lemma BlockBefore(raw: seq<byte>, raw': seq<byte>, used: nat, at: nat, n: nat, p: nat, l: nat)
    requires Inserted(raw, raw', used, at, n) && HEADER <= p && p + l <= at
    ensures Block(raw', p, l) == Block(raw, p, l)
  {
    InsertedIs(raw, raw', used, at, n);
    forall k | p <= k < p + l
      ensures raw'[k] == raw[k]
    {
      assert raw'[k] == raw'[HEADER..used + n][k - HEADER];
    }
  }

  lemma BlockAfter(raw: seq<byte>, raw': seq<byte>, used: nat, at: nat, n: nat, p: nat, l: nat)
    requires Inserted(raw, raw', used, at, n) && at <= p && p + l <= used
    ensures Block(raw', p + n, l) == Block(raw, p, l)
  {
    InsertedIs(raw, raw', used, at, n);
    forall k | p <= k < p + l
      ensures raw'[k + n] == raw[k]
    {
      assert raw'[k + n] == raw'[HEADER..used + n][k + n - HEADER];
    }
  }

  lemma BlockGap(raw: seq<byte>, raw': seq<byte>, used: nat, at: nat, n: nat)
    requires Inserted(raw, raw', used, at, n)
    ensures raw'[at..at + n] == Zeros(n)
  {
    InsertedIs(raw, raw', used, at, n);
    forall k | at <= k < at + n
      ensures raw'[k] == 0
    {
      assert raw'[k] == raw'[HEADER..used + n][k - HEADER];
    }
  }

  lemma BlockAround(raw: seq<byte>, raw': seq<byte>, used: nat, at: nat, n: nat, p: nat, l: nat)
    requires Inserted(raw, raw', used, at, n) && HEADER <= p <= at <= p + l <= used
    ensures Block(raw', p, l + n) == Splice(Block(raw, p, l), at - p, 0, Zeros(n))
  {
    BlockBefore(raw, raw', used, at, n, p, at - p);
    BlockAfter(raw, raw', used, at, n, at, p + l - at);
    BlockGap(raw, raw', used, at, n);
    ThreeParts(raw', p, at, at + n, p + l + n);
    TwoParts(raw, p, at, p + l);
  }

  lemma ThreeParts(s: seq<byte>, a: nat, b: nat, c: nat, d: nat)
    requires a <= b <= c <= d <= |s|
    ensures s[a..d] == s[a..b] + s[b..c] + s[c..d]
  {
  }

  lemma TwoParts(s: seq<byte>, a: nat, b: nat, c: nat)
    requires a <= b <= c <= |s|
    ensures s[a..c][..b - a] == s[a..b] && s[a..c][b - a..] == s[b..c]
  {
  }

  /** A block that does not strictly contain the insertion point keeps its bytes where it moves to. */
  lemma BlockMoves(raw: seq<byte>, raw': seq<byte>, used: nat, at: nat, n: nat, p: nat, l: nat)
    requires Inserted(raw, raw', used, at, n) && HEADER <= p && p + l <= used && (p + l <= at || at <= p)
    ensures Move(p, at, n) + l <= used + n
    ensures Block(raw', Move(p, at, n), l) == Block(raw, p, l)
  {
    if at <= p {
      BlockAfter(raw, raw', used, at, n, p, l);
    } else {
      BlockBefore(raw, raw', used, at, n, p, l);
    }
  }

  /** Blocks that lie clear of each other stay so. */
  lemma MoveClear(at: nat, n: nat, p: nat, l: nat, q: nat, m: nat)
    requires Clear(p, l, q, m) && (p + l <= at || at <= p)
    requires q < at <= q + m
    ensures Clear(Move(p, at, n), l, Move(q, at, n), m + n)
  {
  }

  lemma MoveBothClear(at: nat, n: nat, p: nat, l: nat, q: nat, m: nat)
    requires Clear(p, l, q, m) && (p + l <= at || at <= p) && (q + m <= at || at <= q)
    ensures Clear(Move(p, at, n), l, Move(q, at, n), m)
  {
  }
}
