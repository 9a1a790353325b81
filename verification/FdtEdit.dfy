/** Editing a device tree in place: fdt_insert() and what is built on it. */
module FdtEdit {
  import opened Basics
  import opened FdtFormat
  import opened FdtSpec
  import opened FdtSplice
  import opened FdtBlob

  const INSERT_PAD := 1024

  /** `t` is `s` but for header field `i`, now `n`. */
  predicate Stored(s: seq<byte>, t: seq<byte>, i: nat, n: nat) {
    HEADER <= |s| == |t| && IsField(i) && Header(t) == SetField(Header(s), i, n) && t[HEADER..] == s[HEADER..]
  }

  /** fdt_insert() on a blob: space at `at`, later blocks moved, header kept up to date. */
  predicate InsertedBlob(b: Blob, c: Blob, at: nat, n: nat) {
    && Inserted(b.raw, c.raw, b.used, at, n)
    && c.used == b.used + n && b.len <= c.len && c.used <= c.len == |c.raw| < WORD_SPACE
    && c.structure == Move(b.structure, at, n) && c.structureLen == b.structureLen
    && c.strings == Move(b.strings, at, n) && c.stringsLen == b.stringsLen
    && c.reservations == Move(b.reservations, at, n)
  }

  /** fdt_insert() has succeeded. */
  predicate InsertDone(b: Blob, c: Blob, at: nat, n: nat) {
    InsertedBlob(b, c, at, n) && HeaderOk(c) && Identity(c) == Identity(b)
  }

  /** The recorded offsets, in the blob and in its header, allow for `n` bytes inserted at `at`. */
  predicate MovedBy(b: Blob, c: Blob, at: nat, n: nat) {
    && HEADER <= |b.raw| == |c.raw| && c.raw[HEADER..] == b.raw[HEADER..]
    && c == Blob(c.raw, b.len, b.used, Move(b.structure, at, n), b.structureLen,
                 Move(b.strings, at, n), b.stringsLen, Move(b.reservations, at, n))
    && HeaderOk(c) && Identity(c) == Identity(b)
  }

  /** There is room to fill `n` bytes of the structure block at `o`, and to record them. */
  predicate CanFill(c: Blob, o: nat, n: nat) {
    HEADER <= c.structure && c.structure + o + n <= |c.raw| && HeaderOk(c) && c.structureLen + n < WORD_SPACE
  }

  /** There is room for `m` bytes after the strings block, and `n` more bytes of it can be recorded. */
  predicate CanExtend(c: Blob, n: nat, m: nat) {
    HEADER <= c.strings && c.strings + c.stringsLen + m <= |c.raw| && HeaderOk(c) && c.stringsLen + n < WORD_SPACE
  }

  /** Making room fails only for lack of free space, and always does so if the blob cannot grow. */
  predicate RoomExact(failed: bool, canGrow: bool, free: int, n: nat) {
    (failed ==> free < n) && (!canGrow && free < n ==> failed)
  }

  /** The length of the buffer once there is room for `n` more bytes. */
  function LenAfter(b: Blob, n: nat): nat {
    if b.len < b.used + n then b.used + n + INSERT_PAD else b.len
  }

  class Editor {
    var raw: seq<byte>
    var len: nat
    var used: nat
    var structure: nat
    var structureLen: nat
    var strings: nat
    var stringsLen: nat
    var reservations: nat
    const canRealloc: bool

    function State(): Blob
      reads this
    {
      Blob(raw, len, used, structure, structureLen, strings, stringsLen, reservations)
    }

    constructor (b: Blob, canRealloc: bool)
      ensures State() == b && this.canRealloc == canRealloc
    {
      raw, len, used := b.raw, b.len, b.used;
      structure, structureLen := b.structure, b.structureLen;
      strings, stringsLen, reservations := b.strings, b.stringsLen, b.reservations;
      this.canRealloc := canRealloc;
    }

    method PutWord(at: nat, n: nat)
      requires at + 4 <= |raw| && n < WORD_SPACE
      modifies `raw
      ensures raw == Write(old(raw), at, BE32(n))
    {
      raw := raw[..at] + BE32(n) + raw[at + 4..];
    }

    method PutField(i: nat, n: nat)
      requires HEADER <= |raw| && IsField(i) && n < WORD_SPACE
      modifies `raw
      ensures Stored(old(raw), raw, i, n)
    {
      StoreField(raw, i, n);
      PutWord(i, n);
    }

    /** fdt_urealloc(): may fail; the added bytes are arbitrary. */
    method Realloc(size: nat) returns (ok: bool)
      requires HEADER <= |raw| == len <= size
      modifies `raw, `len
      ensures !ok ==> raw == old(raw) && len == old(len)
      ensures ok ==> |raw| == len == size < WORD_SPACE
      ensures ok ==> Header(raw) == SetField(Header(old(raw)), TOTALSIZE, size) && raw[HEADER..old(len)] == old(raw[HEADER..len])
    {
      ok := *;
      ok := ok && size < WORD_SPACE;
      if ok {
        var added := new byte[size - len];
        raw := raw + added[..];
        len := size;
        HeaderSame(old(raw), raw);
        ghost var grown := raw;
        PutField(TOTALSIZE, size);
        SamePart(grown, raw, HEADER, size, HEADER, old(len));
        assert grown[HEADER..old(len)] == old(raw[HEADER..len]);
      }
    }

    /** The memmove() and memset() of fdt_insert(). */
    method OpenGap(at: nat, n: nat)
      requires HEADER <= at <= used && used + n <= |raw|
      modifies `raw, `used
      ensures used == old(used) + n && |raw| == old(|raw|)
      ensures Inserted(old(raw), raw, old(used), at, n)
      ensures raw[..HEADER] == old(raw[..HEADER])
    {
      raw := raw[..at] + Zeros(n) + raw[at..used] + raw[used + n..];
      used := used + n;
      ghost var a, z, r, t := old(raw[HEADER..at]), Zeros(n), old(raw[at..used]), old(raw[used + n..]);
      assert raw == old(raw[..HEADER]) + (a + z + r + t);
      assert raw[HEADER..] == a + z + r + t;
      assert raw[HEADER..used] == raw[HEADER..][..used - HEADER];
      InsertedIs(old(raw), raw, old(used), at, n);
    }

    /** The "update offsets" part of fdt_insert(). */
    method MoveBlocks(at: nat, n: nat)
      requires HEADER <= |raw| && HeaderOk(State())
      requires structure + n < WORD_SPACE && strings + n < WORD_SPACE && reservations + n < WORD_SPACE
      modifies `raw, `structure, `strings, `reservations
      ensures MovedBy(old(State()), State(), at, n)
    {
      if structure >= at {
        structure := structure + n;
        PutField(OFF_DT_STRUCT, structure);
      }
      if strings >= at {
        strings := strings + n;
        PutField(OFF_DT_STRINGS, strings);
      }
      if reservations >= at {
        reservations := reservations + n;
        PutField(OFF_MEM_RSVMAP, reservations);
      }
    }

    /** The reallocation part of fdt_insert(). */
    method Reserve(n: nat) returns (r: Result<()>)
      requires HEADER <= used <= len == |raw| < WORD_SPACE && HeaderOk(State())
      modifies `raw, `len
      ensures RoomExact(r.Err?, canRealloc, old(len - used), n)
      ensures r.Err? ==> State() == old(State()) && r.error == if canRealloc then ENOMEM else ENOTSUP
      ensures r.Ok? ==> used + n <= len == |raw| < WORD_SPACE && len == LenAfter(old(State()), n)
      ensures r.Ok? ==> HeaderOk(State()) && Identity(State()) == Identity(old(State())) && raw[HEADER..used] == old(raw[HEADER..used])
    {
      var free := len - used;
      if free < n {
        if !canRealloc {
          return Err(ENOTSUP);
        }
        var ok := Realloc(len + (n - free) + INSERT_PAD);
        if !ok {
          return Err(ENOMEM);
        }
        SamePart(old(raw), raw, HEADER, old(len), HEADER, used);
      }
      r := Ok(());
    }

    /** fdt_insert(): on failure nothing changes; growing fails only if it is impossible or memory runs out. */
    method Insert(at: nat, n: nat, ghost rsv: nat) returns (r: Result<()>)
      requires Layout(State(), rsv) && HEADER <= at <= used
      modifies this
      ensures RoomExact(r.Err?, canRealloc, old(len - used), n)
      ensures r.Err? ==> State() == old(State()) && r.error == if canRealloc then ENOMEM else ENOTSUP
      ensures r.Ok? ==> InsertDone(old(State()), State(), at, n) && len == LenAfter(old(State()), n)
    {
      r := Reserve(n);
      if r.Err? {
        return;
      }
      OpenAndMove(at, n, old(State()), rsv);
    }

    /** The rest of fdt_insert(), once there is room. */
    method OpenAndMove(at: nat, n: nat, ghost b: Blob, ghost rsv: nat)
      requires Layout(b, rsv) && HEADER <= at <= used && used + n <= len == |raw| < WORD_SPACE && b.len <= len
      requires State() == b.(raw := raw, len := len) && HeaderOk(State()) && Identity(State()) == Identity(b)
      requires raw[HEADER..used] == b.raw[HEADER..used]
      modifies this
      ensures InsertDone(b, State(), at, n) && len == old(len)
    {
      ghost var grown := raw;
      OpenGap(at, n);
      HeaderSame(grown, raw);
      ghost var gap := State();
      MoveBlocks(at, n);
      SameGap(b.raw, grown, gap.raw, raw, b.used, at, n);
    }

    /** fdt_nop() */
    method Nop(offset: nat, n: nat)
      requires structure + offset + 4 * n <= |raw|
      modifies `raw
      ensures raw == Write(old(raw), structure + offset, NopBytes(n))
    {
      var at, count := structure + offset, 0;
      assert raw == Write(raw, at, []);
      while count < n
        invariant count <= n && |raw| == old(|raw|)
        invariant raw == Write(old(raw), at, NopBytes(count))
      {
        WriteNext(old(raw), at, NopBytes(count), BE32(FDT_NOP));
        NopBytesSnoc(count);
        PutWord(at + 4 * count, FDT_NOP);
        count := count + 1;
      }
    }

    /** The part of fdt_insert_nop() that follows the insertion: fill with NOPs and update the length. */
    method FillNop(offset: nat, n: nat)
      requires CanFill(State(), offset, 4 * n)
      modifies `raw, `structureLen
      ensures Filled(old(State()), State(), structure + offset, NopBytes(n))
    {
      ghost var c, at := State(), structure + offset;
      Nop(offset, n);
      ghost var w := raw;
      structureLen := structureLen + 4 * n;
      PutField(SIZE_DT_STRUCT, structureLen);
      FilledBy(c, State(), w, at, NopBytes(n));
    }

    /** fdt_insert_nop(), once the length is rounded up. */
    method InsertWords(offset: nat, n: nat, ghost rsv: nat) returns (r: Result<()>)
      requires Layout(State(), rsv) && 0 < offset <= structureLen && 4 * n % 8 == 0
      modifies this
      ensures RoomExact(r.Err?, canRealloc, old(len - used), 4 * n)
      ensures r.Err? ==> State() == old(State()) && r.error == if canRealloc then ENOMEM else ENOTSUP
      ensures r.Ok? ==> Spliced(old(State()), State(), offset, 0, NopBytes(n), rsv)
    {
      r := Insert(structure + offset, 4 * n, rsv);
      if r.Ok? {
        FinishNop(offset, n, old(State()), rsv);
      }
    }

    method FinishNop(offset: nat, n: nat, ghost b: Blob, ghost rsv: nat)
      requires Layout(b, rsv) && 0 < offset <= b.structureLen && InsertDone(b, State(), b.structure + offset, 4 * n)
      requires 4 * n % 8 == 0
      modifies `raw, `structureLen
      ensures Spliced(b, State(), offset, 0, NopBytes(n), rsv)
    {
      ghost var c := State();
      Fillable(b, c, offset, 4 * n, rsv);
      FillNop(offset, n);
      NopsInserted(b, c, State(), offset, NopBytes(n), rsv);
    }

    /** fdt_insert_nop() */
    method InsertNop(offset: nat, min: nat, ghost rsv: nat) returns (r: Result<()>)
      requires Layout(State(), rsv) && 0 < offset <= structureLen
      modifies this
      ensures RoomExact(r.Err?, canRealloc, old(len - used), Round8(min))
      ensures r.Err? ==> State() == old(State()) && r.error == if canRealloc then ENOMEM else ENOTSUP
      ensures r.Ok? ==> Spliced(old(State()), State(), offset, 0, NopBytes(Pairs(min)), rsv)
    {
      RoundIsPairs(min);
      r := InsertWords(offset, Round8(min) / 4, rsv);
    }

    /** The memcpy() or store part of an edit, within the structure block. */
    method WriteStruct(offset: nat, x: seq<byte>, ghost rsv: nat)
      requires Layout(State(), rsv) && offset + |x| <= structureLen
      modifies `raw
      ensures Written(old(State()), State(), offset, x, rsv)
    {
      raw := Write(raw, structure + offset, x);
      Overwrite(old(State()), State(), offset, x, rsv);
    }

    /** fdt_nop() over part of the structure block. */
    method Erase(offset: nat, n: nat, ghost rsv: nat)
      requires Layout(State(), rsv) && offset + 4 * n <= structureLen
      modifies `raw
      ensures Written(old(State()), State(), offset, NopBytes(n), rsv)
    {
      Nop(offset, n);
      Overwrite(old(State()), State(), offset, NopBytes(n), rsv);
    }

    /** The part of fdt_insert_string() that follows the insertion: store the string and update the length. */
    method ExtendStrings(n: nat, x: seq<byte>)
      requires CanExtend(State(), n, |x|) && |x| <= n
      modifies `raw, `stringsLen
      ensures Extended(old(State()), State(), old(strings + stringsLen), n, x)
    {
      ghost var c, at := State(), strings + stringsLen;
      raw := Write(raw, strings + stringsLen, x);
      ghost var w := raw;
      stringsLen := stringsLen + n;
      PutField(SIZE_DT_STRINGS, stringsLen);
      ExtendedBy(c, State(), w, at, n, x);
    }

    /**
      fdt_insert_string(): the string and its terminator are added to the strings block.
      An empty block moves out of the way of the space inserted at its end, and the string
      is then stored after that space. In any case `c` is the blob before the store.
     */
    method InsertString(name: seq<byte>, ghost rsv: nat) returns (r: Result<nat>, ghost c: Blob)
      requires Layout(State(), rsv) && 0 !in name && Storable(State(), |name| + 1)
      modifies this
      ensures RoomExact(r.Err?, canRealloc, old(len - used), Round8(|name| + 1))
      ensures r.Err? ==> State() == old(State()) && r.error == if canRealloc then ENOMEM else ENOTSUP
      ensures r.Ok? ==> r.value == old(stringsLen)
      ensures r.Ok? ==> used == old(used) + Round8(|name| + 1) && len == LenAfter(old(State()), Round8(|name| + 1))
      ensures r.Ok? ==> Appended(old(State()), c, State(), Round8(|name| + 1), name + [0])
    {
      var n := Round8(|name| + 1);
      var done := Insert(strings + stringsLen, n, rsv);
      c := State();
      if done.Err? {
        return Err(done.error), c;
      }
      r := Ok(stringsLen);
      StoreString(n, name + [0], old(State()), rsv);
    }

    method StoreString(n: nat, x: seq<byte>, ghost b: Blob, ghost rsv: nat)
      requires Layout(b, rsv) && n == Round8(|x|) && Storable(b, |x|)
      requires InsertDone(b, State(), b.strings + b.stringsLen, n) && len == LenAfter(b, n)
      modifies `raw, `stringsLen
      ensures Appended(b, old(State()), State(), n, x)
    {
      Extendable(b, State(), n, |x|, rsv);
      ExtendStrings(n, x);
    }
  }

  /** `x` has been written over the structure block, which is longer by as much. */
  predicate Filled(c: Blob, e: Blob, at: nat, x: seq<byte>) {
    && HeaderOk(e) && Identity(e) == Identity(c)
    && HEADER <= at + |x| <= |c.raw| == |e.raw| && e.raw[HEADER..] == Write(c.raw, at, x)[HEADER..]
    && e == Blob(e.raw, c.len, c.used, c.structure, c.structureLen + |x|, c.strings, c.stringsLen, c.reservations)
  }

  /** The bytes of `n` NOP tokens. */
  function NopBytes(n: nat): (r: seq<byte>)
    ensures |r| == 4 * n
  {
    if n == 0 then [] else BE32(FDT_NOP) + NopBytes(n - 1)
  }

  lemma {:induction false} NopBytesAdd(n: nat, m: nat)
    ensures NopBytes(n + m) == NopBytes(n) + NopBytes(m)
  {
    if n > 0 {
      NopBytesAdd(n - 1, m);
      Assoc(BE32(FDT_NOP), NopBytes(n - 1), NopBytes(m));
    } else {
      assert [] + NopBytes(m) == NopBytes(m);
    }
  }

  lemma NopBytesSnoc(n: nat)
    ensures NopBytes(n + 1) == NopBytes(n) + BE32(FDT_NOP)
  {
    NopBytesAdd(n, 1);
    assert NopBytes(1) == BE32(FDT_NOP) + [] == BE32(FDT_NOP);
  }

  /** The NOP tokens that fill `n` bytes rounded up to the maximum alignment. */
  function Pairs(n: nat): nat {
    2 * ((n + 7) / 8)
  }

  lemma RoundIsPairs(n: nat)
    ensures Round8(n) == 4 * Pairs(n) && Round8(n) / 4 == Pairs(n)
  {
  }

  /** Writing on, just after what was written. */
  lemma WriteNext(s: seq<byte>, at: nat, x: seq<byte>, y: seq<byte>)
    requires at + |x| + |y| <= |s|
    ensures Write(Write(s, at, x), at + |x|, y) == Write(s, at, x + y)
  {
  }

  /** What every successful edit keeps. */
  predicate Edited(b: Blob, c: Blob, rsv: nat) {
    && Layout(b, rsv) && Layout(c, rsv) && Identity(c) == Identity(b)
    && ReservationBytes(c, rsv) == ReservationBytes(b, rsv)
    && c.structure % 8 == b.structure % 8 && c.reservations % 8 == b.reservations % 8
  }

  lemma EditedTwice(b: Blob, c: Blob, d: Blob, rsv: nat)
    requires Edited(b, c, rsv) && Edited(c, d, rsv)
    ensures Edited(b, d, rsv)
  {
  }

  /** `x` has taken the place of `d` bytes at `o` in the structure block. */
  predicate Spliced(b: Blob, c: Blob, o: nat, d: nat, x: seq<byte>, rsv: nat) {
    && Edited(b, c, rsv) && StringBytes(c) == StringBytes(b)
    && o + d <= b.structureLen && StructBytes(c) == Splice(StructBytes(b), o, d, x)
  }

  /** `x` has been written over the structure block at `o`. */
  predicate Written(b: Blob, c: Blob, o: nat, x: seq<byte>, rsv: nat) {
    && Edited(b, c, rsv) && StringBytes(c) == StringBytes(b)
    && o + |x| <= b.structureLen && StructBytes(c) == Write(StructBytes(b), o, x)
  }

  /** Writing within what was spliced in. */
  lemma SplicedWritten(b: Blob, c: Blob, a: Blob, o: nat, d: nat, x: seq<byte>, at: nat, i: nat, w: seq<byte>, rsv: nat)
    requires Spliced(b, c, o, d, x, rsv) && at == o + i && i + |w| <= |x| && Written(c, a, at, w, rsv)
    ensures Spliced(b, a, o, d, Write(x, i, w), rsv)
  {
    WriteInSplice(StructBytes(b), o, d, x, i, w);
  }

  /** Inserting before what was spliced in. */
  lemma SplicedTwice(b: Blob, c: Blob, a: Blob, o: nat, d: nat, x: seq<byte>, y: seq<byte>, z: seq<byte>, rsv: nat)
    requires Spliced(b, c, o, d, x, rsv) && Spliced(c, a, o, 0, y, rsv) && z == y + x
    ensures Spliced(b, a, o, d, z, rsv)
  {
    EditedTwice(b, c, a, rsv);
    SpliceTwice(StructBytes(b), o, d, x, y, z);
  }

  lemma SpliceTwice(s: seq<byte>, o: nat, d: nat, x: seq<byte>, y: seq<byte>, z: seq<byte>)
    requires o + d <= |s| && z == y + x
    ensures Splice(Splice(s, o, d, x), o, 0, y) == Splice(s, o, d, z)
  {
  }

  /** Writing is splicing in as many bytes. */
  lemma WrittenSpliced(b: Blob, c: Blob, o: nat, x: seq<byte>, rsv: nat)
    requires Written(b, c, o, x, rsv)
    ensures Spliced(b, c, o, |x|, x, rsv)
  {
  }

  /** `x` has been added to the strings block. */
  predicate StringsGrown(b: Blob, c: Blob, x: seq<byte>, rsv: nat) {
    Edited(b, c, rsv) && StructBytes(c) == StructBytes(b) && StringBytes(c) == StringBytes(b) + x
  }

  /** The bytes that fdt_insert_string() adds. */
  function StringSpace(name: seq<byte>): seq<byte> {
    Write(Zeros(Round8(|name| + 1)), 0, name + [0])
  }

  /** Positions after space is inserted within the structure block, whose length grows by as much. */
  lemma InsertInStructPositions(b: Blob, c: Blob, at: nat, n: nat, rsv: nat)
    requires Blocks(b, rsv) && b.structure < at <= b.structure + b.structureLen && InsertedBlob(b, c, at, n)
    ensures c.structure == b.structure && Blocks(c.(structureLen := b.structureLen + n), rsv)
  {
    MoveClear(at, n, b.strings, b.stringsLen, b.structure, b.structureLen);
    MoveClear(at, n, b.reservations, rsv, b.structure, b.structureLen);
    MoveBothClear(at, n, b.strings, b.stringsLen, b.reservations, rsv);
  }

  /** Space inserted within the structure block leaves the bytes of the other blocks intact. */
  lemma InsertInStructBytes(b: Blob, c: Blob, at: nat, n: nat, rsv: nat)
    requires Blocks(b, rsv) && b.structure < at <= b.structure + b.structureLen && InsertedBlob(b, c, at, n)
    ensures b.structure + b.structureLen + n <= |c.raw|
    ensures Block(c.raw, b.structure, b.structureLen + n) == Splice(StructBytes(b), at - b.structure, 0, Zeros(n))
    ensures c.strings + c.stringsLen <= |c.raw| && StringBytes(c) == StringBytes(b)
    ensures c.reservations + rsv <= |c.raw| && ReservationBytes(c, rsv) == ReservationBytes(b, rsv)
  {
    BlockAround(b.raw, c.raw, b.used, at, n, b.structure, b.structureLen);
    BlockMoves(b.raw, c.raw, b.used, at, n, b.strings, b.stringsLen);
    BlockMoves(b.raw, c.raw, b.used, at, n, b.reservations, rsv);
  }

  /** Writing at the start of inserted space. */
  lemma FillStruct(s: seq<byte>, p: nat, was: seq<byte>, at: nat, n: nat, x: seq<byte>)
    requires p <= at <= p + |was| && p + |was| + n <= |s| && |x| <= n
    requires Block(s, p, |was| + n) == Splice(was, at - p, 0, Zeros(n))
    ensures Block(Write(s, at, x), p, |was| + n) == Splice(was, at - p, 0, Write(Zeros(n), 0, x))
  {
    WriteInside(s, at, x, p, |was| + n);
    WriteInSplice(was, at - p, 0, Zeros(n), 0, x);
  }

  /** Storing a header field changes no block. */
  lemma StoredBlock(s: seq<byte>, t: seq<byte>, p: nat, l: nat)
    requires HEADER <= |s| == |t| && t[HEADER..] == s[HEADER..] && HEADER <= p && p + l <= |s|
    ensures Block(t, p, l) == Block(s, p, l)
  {
    SamePart(s, t, HEADER, |s|, p, p + l);
  }

  /** Space inserted within the structure block has been filled by `x`; the header is not considered. */
  predicate FilledAt(b: Blob, c: Blob, raw: seq<byte>, at: nat, n: nat, x: seq<byte>, rsv: nat) {
    && Blocks(b, rsv) && b.structure < at <= b.structure + b.structureLen && InsertedBlob(b, c, at, n)
    && |x| <= n && at + n <= |c.raw| == |raw| && raw[HEADER..] == Write(c.raw, at, x)[HEADER..]
  }

  lemma FilledStruct(b: Blob, c: Blob, raw: seq<byte>, at: nat, n: nat, x: seq<byte>, rsv: nat)
    requires FilledAt(b, c, raw, at, n, x, rsv)
    ensures b.structure + b.structureLen + n <= |raw|
    ensures Block(raw, b.structure, b.structureLen + n) == Splice(StructBytes(b), at - b.structure, 0, Write(Zeros(n), 0, x))
  {
    InsertInStructBytes(b, c, at, n, rsv);
    FillStruct(c.raw, b.structure, StructBytes(b), at, n, x);
    StoredBlock(Write(c.raw, at, x), raw, b.structure, b.structureLen + n);
  }

  lemma FilledOthers(b: Blob, c: Blob, raw: seq<byte>, at: nat, n: nat, x: seq<byte>, rsv: nat)
    requires FilledAt(b, c, raw, at, n, x, rsv)
    ensures c.strings + b.stringsLen <= |raw| && Block(raw, c.strings, b.stringsLen) == StringBytes(b)
    ensures c.reservations + rsv <= |raw| && Block(raw, c.reservations, rsv) == ReservationBytes(b, rsv)
  {
    InsertInStructPositions(b, c, at, n, rsv);
    InsertInStructBytes(b, c, at, n, rsv);
    KeptClear(c.raw, raw, at, x, c.strings, b.stringsLen);
    KeptClear(c.raw, raw, at, x, c.reservations, rsv);
  }

  /** The blocks after inserted space is filled and the header is updated. */
  lemma FilledBlocks(b: Blob, c: Blob, raw: seq<byte>, at: nat, n: nat, x: seq<byte>, rsv: nat)
    requires FilledAt(b, c, raw, at, n, x, rsv)
    ensures b.structure + b.structureLen + n <= |raw|
    ensures Block(raw, b.structure, b.structureLen + n) == Splice(StructBytes(b), at - b.structure, 0, Write(Zeros(n), 0, x))
    ensures c.strings + b.stringsLen <= |raw| && Block(raw, c.strings, b.stringsLen) == StringBytes(b)
    ensures c.reservations + rsv <= |raw| && Block(raw, c.reservations, rsv) == ReservationBytes(b, rsv)
  {
    FilledStruct(b, c, raw, at, n, x, rsv);
    FilledOthers(b, c, raw, at, n, x, rsv);
  }

  lemma FilledBy(c: Blob, e: Blob, w: seq<byte>, at: nat, x: seq<byte>)
    requires HEADER <= at && at + |x| <= |c.raw| && HeaderOk(c)
    requires w == Write(c.raw, at, x) && Stored(w, e.raw, SIZE_DT_STRUCT, e.structureLen)
    requires e == Blob(e.raw, c.len, c.used, c.structure, c.structureLen + |x|, c.strings, c.stringsLen, c.reservations)
    ensures Filled(c, e, at, x)
  {
    WriteKeepsHeader(c.raw, at, x);
  }

  lemma Fillable(b: Blob, c: Blob, o: nat, n: nat, rsv: nat)
    requires Layout(b, rsv) && 0 < o <= b.structureLen && InsertDone(b, c, b.structure + o, n)
    ensures CanFill(c, o, n) && c.structure == b.structure
  {
  }

  /** fdt_insert_string() stores within the buffer. */
  predicate Storable(b: Blob, m: nat) {
    0 < b.stringsLen || b.strings + Round8(m) + m <= LenAfter(b, Round8(m))
  }

  lemma Extendable(b: Blob, c: Blob, n: nat, m: nat, rsv: nat)
    requires Layout(b, rsv) && InsertDone(b, c, b.strings + b.stringsLen, n) && n == Round8(m) && Storable(b, m)
    requires c.len == LenAfter(b, n)
    ensures CanExtend(c, n, m)
  {
  }

  /** The blob after fdt_insert_nop() fills the space and updates the length. */
  lemma NopsFilled(b: Blob, c: Blob, e: Blob, at: nat, x: seq<byte>, rsv: nat)
    requires Layout(b, rsv) && b.structure < at <= b.structure + b.structureLen
    requires InsertDone(b, c, at, |x|) && Filled(c, e, at, x) && |x| % 8 == 0
    ensures FilledAt(b, c, e.raw, at, |x|, x, rsv) && Edited(b, e, rsv) && e.structure == b.structure
  {
    InsertInStructPositions(b, c, at, |x|, rsv);
    NopsBlocks(b, c, e.raw, at, |x|, x, rsv);
    MoveAligned(b.reservations, at, |x|);
  }

  lemma NopsBlocks(b: Blob, c: Blob, raw: seq<byte>, at: nat, n: nat, x: seq<byte>, rsv: nat)
    requires Blocks(b, rsv) && b.structure < at <= b.structure + b.structureLen && InsertedBlob(b, c, at, n)
    requires |x| <= n && at + n <= |c.raw| == |raw| && raw[HEADER..] == Write(c.raw, at, x)[HEADER..]
    ensures FilledAt(b, c, raw, at, n, x, rsv)
    ensures c.reservations + rsv <= |raw| && Block(raw, c.reservations, rsv) == ReservationBytes(b, rsv)
  {
    FilledBlocks(b, c, raw, at, n, x, rsv);
  }

  lemma NopsInserted(b: Blob, c: Blob, e: Blob, o: nat, x: seq<byte>, rsv: nat)
    requires Layout(b, rsv) && 0 < o <= b.structureLen
    requires InsertDone(b, c, b.structure + o, |x|) && Filled(c, e, b.structure + o, x) && |x| % 8 == 0
    ensures Spliced(b, e, o, 0, x, rsv)
  {
    var at := b.structure + o;
    NopsFilled(b, c, e, at, x, rsv);
    FilledBlocks(b, c, e.raw, at, |x|, x, rsv);
    WriteAll(x);
  }

  lemma WriteAll(x: seq<byte>)
    ensures Write(Zeros(|x|), 0, x) == x
  {
  }

  /** The structure and strings blocks exchanged: insertion treats them alike. */
  function Swap(b: Blob): Blob {
    Blob(b.raw, b.len, b.used, b.strings, b.stringsLen, b.structure, b.structureLen, b.reservations)
  }

  /** `x` has been written after the strings block, which is longer by `n`. */
  predicate Extended(c: Blob, e: Blob, at: nat, n: nat, x: seq<byte>) {
    && HeaderOk(e) && Identity(e) == Identity(c)
    && HEADER <= at + |x| <= |c.raw| == |e.raw| && |x| <= n && e.raw[HEADER..] == Write(c.raw, at, x)[HEADER..]
    && e == Blob(e.raw, c.len, c.used, c.structure, c.structureLen, c.strings, c.stringsLen + n, c.reservations)
  }

  lemma ExtendedBy(c: Blob, e: Blob, w: seq<byte>, at: nat, n: nat, x: seq<byte>)
    requires HEADER <= at && at + |x| <= |c.raw| && |x| <= n && HeaderOk(c)
    requires w == Write(c.raw, at, x) && Stored(w, e.raw, SIZE_DT_STRINGS, e.stringsLen)
    requires e == Blob(e.raw, c.len, c.used, c.structure, c.structureLen, c.strings, c.stringsLen + n, c.reservations)
    ensures Extended(c, e, at, n, x)
  {
    WriteKeepsHeader(c.raw, at, x);
  }

  /** The blocks after fdt_insert_string(). */
  lemma ExtendedBlocks(b: Blob, c: Blob, raw: seq<byte>, at: nat, n: nat, x: seq<byte>, rsv: nat)
    requires Blocks(b, rsv) && 0 < b.stringsLen && at == b.strings + b.stringsLen && InsertedBlob(b, c, at, n)
    requires |x| <= n && at + n <= |c.raw| == |raw| && raw[HEADER..] == Write(c.raw, at, x)[HEADER..]
    ensures c.strings == b.strings && Blocks(c.(stringsLen := b.stringsLen + n), rsv)
    ensures Block(raw, b.strings, b.stringsLen + n) == StringBytes(b) + Write(Zeros(n), 0, x)
    ensures Block(raw, c.structure, b.structureLen) == StructBytes(b)
    ensures Block(raw, c.reservations, rsv) == ReservationBytes(b, rsv)
  {
    InsertInStructPositions(Swap(b), Swap(c), at, n, rsv);
    FilledBlocks(Swap(b), Swap(c), raw, at, n, x, rsv);
    SpliceEnd(StringBytes(b), Write(Zeros(n), 0, x));
  }

  lemma SpliceEnd(s: seq<byte>, x: seq<byte>)
    ensures Splice(s, |s|, 0, x) == s + x
  {
  }

  /** fdt_insert_string() has inserted `n` bytes, which gives `c`, and stored `x`. */
  predicate Appended(b: Blob, c: Blob, e: Blob, n: nat, x: seq<byte>) {
    n % 8 == 0 && InsertDone(b, c, b.strings + b.stringsLen, n) && Extended(c, e, c.strings + c.stringsLen, n, x)
  }

  /** A string added to a strings block that is not empty. */
  lemma StringInserted(b: Blob, c: Blob, e: Blob, n: nat, x: seq<byte>, rsv: nat)
    requires Layout(b, rsv) && 0 < b.stringsLen && Appended(b, c, e, n, x)
    ensures StringsGrown(b, e, Write(Zeros(n), 0, x), rsv)
  {
    var at := b.strings + b.stringsLen;
    ExtendedBlocks(b, c, e.raw, at, n, x, rsv);
    MoveAligned(b.reservations, at, n);
    MoveAligned(b.structure, at, n);
  }

  // Adding a string to an empty strings block.

  /** No other block lies in the `n` bytes from the start of the strings block on. */
  predicate NextClear(b: Blob, n: nat, rsv: nat) {
    && b.strings + n <= b.used
    && Clear(b.strings, n, b.structure, b.structureLen) && Clear(b.strings, n, b.reservations, rsv)
  }

  /** After fdt_insert_string() the blocks lie apart if and only if the strings block was not empty or nothing came next. */
  lemma AppendExact(b: Blob, c: Blob, e: Blob, n: nat, x: seq<byte>, rsv: nat)
    requires Layout(b, rsv) && Appended(b, c, e, n, x) && n > 0
    ensures Blocks(e, rsv) <==> 0 < b.stringsLen || NextClear(b, n, rsv)
  {
    if 0 < b.stringsLen {
      StringInserted(b, c, e, n, x, rsv);
    }
  }

  /** The space inserted for a string in an empty strings block stays zero: the string is stored over what came next. */
  lemma EmptyAppend(b: Blob, c: Blob, e: Blob, n: nat, x: seq<byte>, rsv: nat)
    requires Layout(b, rsv) && Appended(b, c, e, n, x) && b.stringsLen == 0
    ensures b.strings + n + |x| <= |e.raw| && e.strings == b.strings + n
    ensures Block(e.raw, b.strings, n) == Zeros(n) && Block(e.raw, b.strings + n, |x|) == x
  {
    var at := b.strings + n;
    BlockGap(b.raw, c.raw, b.used, b.strings, n);
    KeptClear(c.raw, e.raw, at, x, b.strings, n);
    KeptThere(c.raw, e.raw, at, x);
  }

  /** What lies clear of a store is kept. */
  lemma KeptClear(s: seq<byte>, t: seq<byte>, at: nat, x: seq<byte>, p: nat, l: nat)
    requires HEADER <= at && at + |x| <= |s| == |t| && t[HEADER..] == Write(s, at, x)[HEADER..]
    requires HEADER <= p && p + l <= |s| && Clear(at, |x|, p, l)
    ensures Block(t, p, l) == Block(s, p, l)
  {
    WriteClear(s, at, x, p, l);
    StoredBlock(Write(s, at, x), t, p, l);
  }

  lemma KeptThere(s: seq<byte>, t: seq<byte>, at: nat, x: seq<byte>)
    requires HEADER <= at && at + |x| <= |s| == |t| && t[HEADER..] == Write(s, at, x)[HEADER..]
    ensures Block(t, at, |x|) == x
  {
    WriteInside(s, at, x, at, |x|);
    StoredBlock(Write(s, at, x), t, at, |x|);
    assert Write(Block(s, at, |x|), 0, x) == x;
  }

  /** Wherever it is stored, the string reads back at the offset returned. */
  lemma AppendReadsBack(b: Blob, c: Blob, e: Blob, n: nat, name: seq<byte>, rsv: nat)
    requires Layout(b, rsv) && Appended(b, c, e, n, name + [0]) && 0 !in name
    ensures CStr(e.raw, e.strings + b.stringsLen) == name
  {
    var at := e.strings + b.stringsLen;
    KeptThere(c.raw, e.raw, at, name + [0]);
    CStrIs(e.raw, at, name);
  }

  /** A structure block that comes next loses its first bytes to the string. */
  lemma StructureLost(b: Blob, c: Blob, e: Blob, n: nat, x: seq<byte>, rsv: nat)
    requires Layout(b, rsv) && Appended(b, c, e, n, x) && b.stringsLen == 0
    requires b.structure == b.strings && |x| <= b.structureLen
    ensures e.structure + e.structureLen <= |e.raw| && StructBytes(e) == Write(StructBytes(b), 0, x)
  {
    var at := b.structure + n;
    BlockMoves(b.raw, c.raw, b.used, b.strings, n, b.structure, b.structureLen);
    WriteInside(c.raw, at, x, at, b.structureLen);
    StoredBlock(Write(c.raw, at, x), e.raw, at, b.structureLen);
  }

  /** The blocks after part of the structure block is overwritten. */
  lemma OverwriteBlocks(b: Blob, raw: seq<byte>, at: nat, x: seq<byte>, rsv: nat)
    requires Blocks(b, rsv) && b.structure <= at && at + |x| <= b.structure + b.structureLen && raw == Write(b.raw, at, x)
    ensures Block(raw, b.structure, b.structureLen) == Write(StructBytes(b), at - b.structure, x)
    ensures Block(raw, b.strings, b.stringsLen) == StringBytes(b)
    ensures Block(raw, b.reservations, rsv) == ReservationBytes(b, rsv)
    ensures Header(raw) == Header(b.raw)
  {
    WriteInside(b.raw, at, x, b.structure, b.structureLen);
    WriteClear(b.raw, at, x, b.strings, b.stringsLen);
    WriteClear(b.raw, at, x, b.reservations, rsv);
    WriteKeepsHeader(b.raw, at, x);
  }

  lemma Overwrite(b: Blob, c: Blob, o: nat, x: seq<byte>, rsv: nat)
    requires Layout(b, rsv) && o + |x| <= b.structureLen
    requires c == b.(raw := c.raw) && c.raw == Write(b.raw, b.structure + o, x)
    ensures Written(b, c, o, x, rsv)
  {
    OverwriteBlocks(b, c.raw, b.structure + o, x, rsv);
  }

  /** Opening a gap says the same about buffers that agree after the header. */
  lemma SameGap(s: seq<byte>, s': seq<byte>, t: seq<byte>, t': seq<byte>, used: nat, at: nat, n: nat)
    requires Inserted(s', t, used, at, n) && used <= |s| && HEADER <= |t| == |t'|
    requires s'[HEADER..used] == s[HEADER..used] && t'[HEADER..] == t[HEADER..]
    ensures Inserted(s, t', used, at, n)
  {
    SameGapBefore(s, s', t, used, at, n);
    SameGapAfter(s, t, t', used, at, n);
  }

  lemma SameGapBefore(s: seq<byte>, s': seq<byte>, t: seq<byte>, used: nat, at: nat, n: nat)
    requires Inserted(s', t, used, at, n) && used <= |s| && s'[HEADER..used] == s[HEADER..used]
    ensures Inserted(s, t, used, at, n)
  {
    InsertedIs(s', t, used, at, n);
    InsertedIs(s, t, used, at, n);
    SamePart(s, s', HEADER, used, HEADER, at);
    SamePart(s, s', HEADER, used, at, used);
  }

  lemma SameGapAfter(s: seq<byte>, t: seq<byte>, t': seq<byte>, used: nat, at: nat, n: nat)
    requires Inserted(s, t, used, at, n) && HEADER <= |t| == |t'| && t'[HEADER..] == t[HEADER..]
    ensures Inserted(s, t', used, at, n)
  {
    InsertedIs(s, t, used, at, n);
    InsertedIs(s, t', used, at, n);
    SamePart(t, t', HEADER, |t|, HEADER, used + n);
  }
}
