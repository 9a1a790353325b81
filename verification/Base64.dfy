/** Base64, bit by bit as base64.c does it and group by group as section 4 of RFC 4648 defines it. */
module Base64 {

  datatype Result<T> = Ok(value: T) | Err

  /** A value of six bits. */
  predicate Six(v: bv8) {
    v < 64
  }

  /** The alphabet, in ASCII. */
  function Letter(v: bv8): bv8
    requires Six(v)
  {
    if v < 26 then 65 + v else if v < 52 then 71 + v else if v < 62 then v - 4 else if v == 62 then 43 else 47
  }

  /** The position of a character in the alphabet, or 64 if it is not in it. */
  function Value(c: bv8): bv8 {
    if 65 <= c <= 90 then c - 65
    else if 97 <= c <= 122 then c - 71
    else if 48 <= c <= 57 then c + 4
    else if c == 43 then 62
    else if c == 47 then 63
    else 64
  }

  const PAD: bv8 := 61

  predicate IsSpace(c: bv8) {
    c == 32 || 9 <= c <= 13
  }

  lemma LetterValue(v: bv8)
    requires Six(v)
    ensures Value(Letter(v)) == v && Letter(v) != PAD && !IsSpace(Letter(v)) && Letter(v) != 0
  {
  }

  // Encoding.

  /** The byte at `i`, or zero past the end. */
  function At(raw: seq<bv8>, i: nat): bv8 {
    if i < |raw| then raw[i] else 0
  }

  /** Sextet number `i` of the data, as if it were followed by zeros. */
  function Sextet(raw: seq<bv8>, i: nat): (v: bv8)
    ensures Six(v)
  {
    var k := i / 4 * 3;
    if i % 4 == 0 then At(raw, k) >> 2
    else if i % 4 == 1 then ((At(raw, k) & 3) << 4) | (At(raw, k + 1) >> 4)
    else if i % 4 == 2 then ((At(raw, k + 1) & 15) << 2) | (At(raw, k + 2) >> 6)
    else At(raw, k + 2) & 63
  }

  /** The number of sextets with bits of the data. */
  function Count(n: nat): nat {
    n / 3 * 4 + (if n % 3 == 0 then 0 else n % 3 + 1)
  }

  function Pads(n: nat): nat {
    (3 - n % 3) % 3
  }

  /** The encoding: the sextets as letters, then padding. */
  function Encode(raw: seq<bv8>): seq<bv8> {
    seq(Count(|raw|), i requires 0 <= i => Letter(Sextet(raw, i))) + seq(Pads(|raw|), _ => PAD)
  }

  /** Four characters for every three bytes or part of them. */
  lemma EncodeLength(raw: seq<bv8>)
    ensures |Encode(raw)| == 4 * ((|raw| + 2) / 3)
  {
  }

  /** The six bits at bit position `bit`, as base64_encode() computes them. */
  function BitsAt(b: bv8, next: bv8, shift: nat): bv8
    requires shift <= 8
  {
    var tmp := (b as bv16 << shift) | (next as bv16 >> (8 - shift));
    ((tmp >> 2) & 0x3f) as bv8
  }

  lemma BitsAtCases(b: bv8, next: bv8)
    ensures BitsAt(b, next, 0) == b >> 2
    ensures BitsAt(b, next, 2) == b & 63
    ensures BitsAt(b, next, 4) == ((b & 15) << 2) | (next >> 6)
    ensures BitsAt(b, next, 6) == ((b & 3) << 4) | (next >> 4)
  {
  }

  lemma BitsAreSextet(raw: seq<bv8>, i: nat)
    ensures BitsAt(At(raw, 6 * i / 8), At(raw, 6 * i / 8 + 1), 6 * i % 8) == Sextet(raw, i)
  {
    var k := i / 4;
    BitsAtCases(At(raw, 6 * i / 8), At(raw, 6 * i / 8 + 1));
    if i % 4 == 0 {
      assert i == 4 * k && 6 * i == 8 * (3 * k);
    } else if i % 4 == 1 {
      assert i == 4 * k + 1 && 6 * i == 8 * (3 * k) + 6;
    } else if i % 4 == 2 {
      assert i == 4 * k + 2 && 6 * i == 8 * (3 * k + 1) + 4;
    } else {
      assert i == 4 * k + 3 && 6 * i == 8 * (3 * k + 2) + 2;
    }
  }

  lemma CountBits(n: nat, i: nat)
    ensures 6 * i < 8 * n <==> i < Count(n)
  {
  }

  /** The buffer holds as much of the data as it has room for. */
  predicate Filled(out: seq<bv8>, data: seq<bv8>) {
    forall j | 0 <= j < |data| && j < |out| :: out[j] == data[j]
  }

  /** Store the next character, if there is room. */
  method PutChar(out: array<bv8>, used: nat, c: bv8, ghost data: seq<bv8>)
    requires used == |data| && Filled(out[..], data)
    modifies out
    ensures Filled(out[..], data + [c])
  {
    if used < out.Length {
      out[used] := c;
    }
  }

  /** The first loop of base64_encode(). */
  method EncodeLetters(raw: seq<bv8>, out: array<bv8>) returns (bit: nat, used: nat, ghost data: seq<bv8>)
    modifies out
    ensures bit == 6 * used && used == |data| == Count(|raw|) && Filled(out[..], data)
    ensures forall j | 0 <= j < |data| :: data[j] == Letter(Sextet(raw, j))
  {
    var n := |raw|;
    bit, used, data := 0, 0, [];
    while bit < 8 * n
      invariant bit == 6 * used && used == |data| <= Count(n) && Filled(out[..], data)
      invariant forall j | 0 <= j < |data| :: data[j] == Letter(Sextet(raw, j))
      decreases 8 * n - bit
    {
      CountBits(n, used);
      BitsAreSextet(raw, used);
      var v := ReadBits(raw, bit);
      PutChar(out, used, Letter(v), data);
      data := data + [Letter(v)];
      bit, used := bit + 6, used + 1;
    }
    CountBits(n, used);
  }

  /** The six bits at a bit position within the data. */
  method ReadBits(raw: seq<bv8>, bit: nat) returns (v: bv8)
    requires bit < 8 * |raw|
    ensures v == BitsAt(At(raw, bit / 8), At(raw, bit / 8 + 1), bit % 8)
  {
    var byte, shift := bit / 8, bit % 8;
    v := BitsAt(raw[byte], if byte + 1 < |raw| then raw[byte + 1] else 0, shift);
  }

  /** The second loop of base64_encode(). */
  method EncodePads(n: nat, start: nat, at: nat, out: array<bv8>, ghost letters: seq<bv8>) returns (used: nat, ghost data: seq<bv8>)
    requires start == 6 * at && at == |letters| == Count(n) && Filled(out[..], letters)
    modifies out
    ensures used == |data| && data == letters + seq(Pads(n), _ => PAD) && Filled(out[..], data)
  {
    var bit, pads := start, 0;
    used, data := at, letters;
    assert letters + seq(0, _ => PAD) == letters;
    PadBits(n, 0);
    while bit % 8 != 0
      invariant bit == 6 * (Count(n) + pads) && used == |data| && pads <= Pads(n)
      invariant bit % 8 == 0 <==> pads == Pads(n)
      invariant data == letters + seq(pads, _ => PAD) && Filled(out[..], data)
      decreases Pads(n) - pads
    {
      PutChar(out, used, PAD, data);
      data := data + [PAD];
      bit, used, pads := bit + 6, used + 1, pads + 1;
      PadBits(n, pads);
    }
  }

  /**
    base64_encode(): the length of the encoding, and as much of it as the buffer has room
    for, with a terminator in any case.
   */
  method EncodeData(raw: seq<bv8>, out: array<bv8>) returns (used: nat)
    modifies out
    ensures used == |Encode(raw)|
    ensures forall j | 0 <= j < used && j + 1 < out.Length :: out[j] == Encode(raw)[j]
    ensures out.Length > 0 ==> out[if used < out.Length then used else out.Length - 1] == 0
  {
    var bit;
    ghost var letters, data;
    bit, used, letters := EncodeLetters(raw, out);
    used, data := EncodePads(|raw|, bit, used, out, letters);
    EncodeIs(raw, letters, data);
    if used < out.Length {
      out[used] := 0;
    }
    if out.Length > 0 {
      out[out.Length - 1] := 0;
    }
  }

  lemma EncodeIs(raw: seq<bv8>, letters: seq<bv8>, data: seq<bv8>)
    requires |letters| == Count(|raw|) && forall j | 0 <= j < |letters| :: letters[j] == Letter(Sextet(raw, j))
    requires data == letters + seq(Pads(|raw|), _ => PAD)
    ensures data == Encode(raw)
  {
    assert letters == seq(Count(|raw|), i requires 0 <= i => Letter(Sextet(raw, i)));
  }

  lemma PadBits(n: nat, p: nat)
    requires p <= Pads(n)
    ensures (6 * (Count(n) + p)) % 8 == 0 <==> p == Pads(n)
  {
    var k, r := n / 3, n % 3;
    var x := if r == 0 then 0 else 6 * (r + 1 + p);
    assert 6 * (Count(n) + p) == 8 * (3 * k) + x;
    Multiple(3 * k, x);
  }

  lemma Multiple(q: nat, x: nat)
    ensures (8 * q + x) % 8 == x % 8
  {
  }

  // The definition by groups of three bytes.

  function Group(a: bv8, b: bv8, c: bv8): seq<bv8> {
    [Letter(a >> 2), Letter(((a & 3) << 4) | (b >> 4)), Letter(((b & 15) << 2) | (c >> 6)), Letter(c & 63)]
  }

  /** Section 4 of RFC 4648. */
  function ByGroups(raw: seq<bv8>): seq<bv8> {
    if |raw| == 0 then []
    else if |raw| == 1 then Group(raw[0], 0, 0)[..2] + [PAD, PAD]
    else if |raw| == 2 then Group(raw[0], raw[1], 0)[..3] + [PAD]
    else Group(raw[0], raw[1], raw[2]) + ByGroups(raw[3..])
  }

  lemma SextetShift(raw: seq<bv8>, i: nat)
    requires |raw| >= 3
    ensures Sextet(raw, i + 4) == Sextet(raw[3..], i)
  {
    assert (i + 4) / 4 == i / 4 + 1 && (i + 4) % 4 == i % 4;
  }

  /** The sextets of a group of three bytes. */
  lemma SextetAt(raw: seq<bv8>, k: nat)
    ensures Sextet(raw, 4 * k) == At(raw, 3 * k) >> 2
    ensures Sextet(raw, 4 * k + 1) == ((At(raw, 3 * k) & 3) << 4) | (At(raw, 3 * k + 1) >> 4)
    ensures Sextet(raw, 4 * k + 2) == ((At(raw, 3 * k + 1) & 15) << 2) | (At(raw, 3 * k + 2) >> 6)
    ensures Sextet(raw, 4 * k + 3) == At(raw, 3 * k + 2) & 63
  {
    assert 4 * k / 4 == k && (4 * k + 1) / 4 == k && (4 * k + 2) / 4 == k && (4 * k + 3) / 4 == k;
  }

  /** The encoding of a group, and of what follows it. */
  lemma EncodeSplits(raw: seq<bv8>)
    requires |raw| >= 3
    ensures Encode(raw) == Group(raw[0], raw[1], raw[2]) + Encode(raw[3..])
  {
    var e, rest, g := Encode(raw), Encode(raw[3..]), Group(raw[0], raw[1], raw[2]);
    EncodeStart(raw);
    forall i | 0 <= i < |e|
      ensures e[i] == (g + rest)[i]
    {
      if 4 <= i {
        EncodeShift(raw, i - 4);
      }
    }
  }

  lemma CountShift(n: nat)
    requires n >= 3
    ensures Count(n) == Count(n - 3) + 4 && Pads(n) == Pads(n - 3)
  {
  }

  lemma EncodeLetter(raw: seq<bv8>, i: nat)
    ensures |Encode(raw)| == Count(|raw|) + Pads(|raw|)
    ensures i < Count(|raw|) ==> Encode(raw)[i] == Letter(Sextet(raw, i))
    ensures Count(|raw|) <= i < Count(|raw|) + Pads(|raw|) ==> Encode(raw)[i] == PAD
  {
  }

  function FirstLetters(raw: seq<bv8>): seq<bv8> {
    [Letter(Sextet(raw, 0)), Letter(Sextet(raw, 1)), Letter(Sextet(raw, 2)), Letter(Sextet(raw, 3))]
  }

  lemma FirstGroup(raw: seq<bv8>)
    requires |raw| >= 3
    ensures FirstLetters(raw) == Group(raw[0], raw[1], raw[2])
  {
    SextetAt(raw, 0);
  }

  lemma EncodeFirst(raw: seq<bv8>, e: seq<bv8>)
    requires |raw| >= 3 && e == Encode(raw)
    ensures |e| >= 4 && e[..4] == FirstLetters(raw)
  {
    CountShift(|raw|);
    EncodeLetter(raw, 0);
    EncodeLetter(raw, 1);
    EncodeLetter(raw, 2);
    EncodeLetter(raw, 3);
  }

  lemma EncodeStart(raw: seq<bv8>)
    requires |raw| >= 3
    ensures |Encode(raw)| == 4 + |Encode(raw[3..])| && Encode(raw)[..4] == Group(raw[0], raw[1], raw[2])
  {
    CountShift(|raw|);
    FirstGroup(raw);
    EncodeFirst(raw, Encode(raw));
    EncodeLetter(raw, 0);
    EncodeLetter(raw[3..], 0);
  }

  lemma EncodeShift(raw: seq<bv8>, i: nat)
    requires |raw| >= 3 && i < |Encode(raw[3..])|
    ensures i + 4 < |Encode(raw)| && Encode(raw)[i + 4] == Encode(raw[3..])[i]
  {
    CountShift(|raw|);
    SextetShift(raw, i);
    EncodeLetter(raw, i + 4);
    EncodeLetter(raw[3..], i);
  }

  lemma {:induction false} EncodeByGroups(raw: seq<bv8>)
    ensures Encode(raw) == ByGroups(raw)
  {
    if |raw| == 0 {
    } else if |raw| == 1 {
      assert raw == [raw[0]];
      EncodeOne(raw[0]);
    } else if |raw| == 2 {
      assert raw == [raw[0], raw[1]];
      EncodeTwo(raw[0], raw[1]);
    } else {
      EncodeByGroups(raw[3..]);
      EncodeSplits(raw);
    }
  }

  lemma EncodeOne(a: bv8)
    ensures Encode([a]) == Group(a, 0, 0)[..2] + [PAD, PAD]
  {
    SextetAt([a], 0);
    assert Count(1) == 2 && Pads(1) == 2;
  }

  lemma EncodeTwo(a: bv8, b: bv8)
    ensures Encode([a, b]) == Group(a, b, 0)[..3] + [PAD]
  {
    SextetAt([a, b], 0);
    assert Count(2) == 3 && Pads(2) == 1;
  }

  // Decoding.

  /** The sextets and the number of pad characters of an encoded string. */
  datatype Scanned = Scanned(vs: seq<bv8>, pads: nat)

  /** The characters of an encoded string, after those already scanned. */
  function Scan(s: seq<bv8>, vs: seq<bv8>, pads: nat): Result<Scanned>
    decreases |s|
  {
    if s == [] then Ok(Scanned(vs, pads))
    else if IsSpace(s[0]) then Scan(s[1..], vs, pads)
    else if s[0] == PAD then (if pads >= 2 then Err else Scan(s[1..], vs, pads + 1))
    else if pads > 0 || Value(s[0]) == 64 then Err
    else Scan(s[1..], vs + [Value(s[0])], pads)
  }

  /** Byte `j` of the data that sextets make up, as far as they go. */
  function Part(vs: seq<bv8>, j: nat): bv8 {
    var k := j / 3 * 4;
    if j % 3 == 0 then (At(vs, k) << 2) | (At(vs, k + 1) >> 4)
    else if j % 3 == 1 then (At(vs, k + 1) << 4) | (At(vs, k + 2) >> 2)
    else (At(vs, k + 2) << 6) | At(vs, k + 3)
  }

  /** base64_decode(): whole bytes, or an error. */
  function Decode(s: seq<bv8>): Result<seq<bv8>> {
    match Scan(s, [], 0)
    case Err => Err
    case Ok(Scanned(vs, pads)) =>
      var bits := 6 * |vs| - 2 * pads;
      if bits < 0 || bits % 8 != 0 then Err else Ok(seq(bits / 8, j requires 0 <= j => Part(vs, j)))
  }

  function Sextets(raw: seq<bv8>): (vs: seq<bv8>)
    ensures |vs| == Count(|raw|)
  {
    seq(Count(|raw|), i requires 0 <= i => Sextet(raw, i))
  }

  lemma {:induction false} ScanLetters(raw: seq<bv8>, n: nat, rest: seq<bv8>)
    requires n <= Count(|raw|)
    ensures Scan(Encode(raw)[n..Count(|raw|)] + rest, Sextets(raw)[..n], 0) == Scan(rest, Sextets(raw), 0)
    decreases Count(|raw|) - n
  {
    var m, vs := Count(|raw|), Sextets(raw);
    var s := Encode(raw)[n..m] + rest;
    if n == m {
      assert s == rest && vs[..n] == vs;
    } else {
      LetterValue(vs[n]);
      assert s[0] == Letter(vs[n]);
      assert s[1..] == Encode(raw)[n + 1..m] + rest;
      assert vs[..n] + [vs[n]] == vs[..n + 1];
      ScanLetters(raw, n + 1, rest);
    }
  }

  lemma ScanPads(vs: seq<bv8>, n: nat)
    requires n <= 2
    ensures Scan(seq(n, _ => PAD), vs, 0) == Ok(Scanned(vs, n))
  {
    var s := seq(n, _ => PAD);
    assert Scan([], vs, n) == Ok(Scanned(vs, n));
    if n == 1 {
      assert s == [PAD] && s[1..] == [];
    } else if n == 2 {
      assert s == [PAD, PAD] && s[1..] == [PAD] && s[1..][1..] == [];
      assert Scan(s[1..], vs, 1) == Scan([], vs, 2);
    }
  }

  lemma Rejoin(a: bv8, b: bv8, c: bv8)
    ensures ((a >> 2) << 2) | ((((a & 3) << 4) | (b >> 4)) >> 4) == a
    ensures ((((a & 3) << 4) | (b >> 4)) << 4) | ((((b & 15) << 2) | (c >> 6)) >> 2) == b
    ensures ((((b & 15) << 2) | (c >> 6)) << 6) | (c & 63) == c
  {
  }

  /** The bytes of a group of four sextets. */
  lemma PartAt(vs: seq<bv8>, k: nat)
    ensures Part(vs, 3 * k) == (At(vs, 4 * k) << 2) | (At(vs, 4 * k + 1) >> 4)
    ensures Part(vs, 3 * k + 1) == (At(vs, 4 * k + 1) << 4) | (At(vs, 4 * k + 2) >> 2)
    ensures Part(vs, 3 * k + 2) == (At(vs, 4 * k + 2) << 6) | At(vs, 4 * k + 3)
  {
    assert 3 * k / 3 == k && (3 * k + 1) / 3 == k && (3 * k + 2) / 3 == k;
  }

  lemma CountGroup(n: nat, k: nat)
    ensures 3 * k < n ==> 4 * k + 1 < Count(n)
    ensures 3 * k + 1 < n ==> 4 * k + 2 < Count(n)
    ensures 3 * k + 2 < n ==> 4 * k + 3 < Count(n)
  {
  }

  lemma SextetsAt(raw: seq<bv8>, i: nat)
    requires i < Count(|raw|)
    ensures At(Sextets(raw), i) == Sextet(raw, i)
  {
  }

  lemma FirstOfGroup(raw: seq<bv8>, k: nat)
    requires 3 * k < |raw|
    ensures Part(Sextets(raw), 3 * k) == raw[3 * k]
  {
    var vs := Sextets(raw);
    CountGroup(|raw|, k);
    SextetsAt(raw, 4 * k);
    SextetsAt(raw, 4 * k + 1);
    SextetAt(raw, k);
    PartAt(vs, k);
    Rejoin(At(raw, 3 * k), At(raw, 3 * k + 1), 0);
  }

  lemma SecondOfGroup(raw: seq<bv8>, k: nat)
    requires 3 * k + 1 < |raw|
    ensures Part(Sextets(raw), 3 * k + 1) == raw[3 * k + 1]
  {
    var vs := Sextets(raw);
    CountGroup(|raw|, k);
    SextetsAt(raw, 4 * k + 1);
    SextetsAt(raw, 4 * k + 2);
    SextetAt(raw, k);
    PartAt(vs, k);
    Rejoin(At(raw, 3 * k), At(raw, 3 * k + 1), At(raw, 3 * k + 2));
  }

  lemma ThirdOfGroup(raw: seq<bv8>, k: nat)
    requires 3 * k + 2 < |raw|
    ensures Part(Sextets(raw), 3 * k + 2) == raw[3 * k + 2]
  {
    var vs := Sextets(raw);
    CountGroup(|raw|, k);
    SextetsAt(raw, 4 * k + 2);
    SextetsAt(raw, 4 * k + 3);
    SextetAt(raw, k);
    PartAt(vs, k);
    Rejoin(0, At(raw, 3 * k + 1), At(raw, 3 * k + 2));
  }

  lemma PartOfSextets(raw: seq<bv8>, j: nat)
    requires j < |raw|
    ensures Part(Sextets(raw), j) == raw[j]
  {
    var k := j / 3;
    if j == 3 * k {
      FirstOfGroup(raw, k);
    } else if j == 3 * k + 1 {
      SecondOfGroup(raw, k);
    } else {
      ThirdOfGroup(raw, k);
    }
  }

  /** The padding makes up for the bits of the last sextet that are not used. */
  lemma WholeBits(n: nat)
    ensures 6 * Count(n) - 2 * Pads(n) == 8 * n
  {
    WholeGroups(n / 3, n % 3);
  }

  lemma WholeGroups(k: nat, r: nat)
    requires r < 3
    ensures 6 * (k * 4 + if r == 0 then 0 else r + 1) - 2 * ((3 - r) % 3) == 8 * (3 * k + r)
  {
    assert r == 0 || r == 1 || r == 2;
  }

  lemma WholeBytes(n: nat)
    ensures 8 * n % 8 == 0 && 8 * n / 8 == n
  {
  }

  lemma ScanEncode(raw: seq<bv8>)
    ensures Scan(Encode(raw), [], 0) == Ok(Scanned(Sextets(raw), Pads(|raw|)))
  {
    var pads := seq(Pads(|raw|), _ => PAD);
    ScanLetters(raw, 0, pads);
    assert Encode(raw)[0..Count(|raw|)] + pads == Encode(raw) && Sextets(raw)[..0] == [];
    ScanPads(Sextets(raw), Pads(|raw|));
  }

  lemma DecodeScanned(s: seq<bv8>, vs: seq<bv8>, pads: nat, raw: seq<bv8>)
    requires Scan(s, [], 0) == Ok(Scanned(vs, pads)) && 6 * |vs| - 2 * pads == 8 * |raw|
    requires forall j | 0 <= j < |raw| :: Part(vs, j) == raw[j]
    ensures Decode(s) == Ok(raw)
  {
    var bits := 6 * |vs| - 2 * pads;
    WholeBytes(|raw|);
    assert seq(bits / 8, j requires 0 <= j => Part(vs, j)) == raw;
  }

  /** Decoding undoes encoding, for every byte string. */
  lemma DecodeEncode(raw: seq<bv8>)
    ensures Decode(Encode(raw)) == Ok(raw)
  {
    ScanEncode(raw);
    WholeBits(|raw|);
    forall j | 0 <= j < |raw|
      ensures Part(Sextets(raw), j) == raw[j]
    {
      PartOfSextets(raw, j);
    }
    DecodeScanned(Encode(raw), Sextets(raw), Pads(|raw|), raw);
  }

  // The code of base64_decode().

  /** What base64_decode() adds to byte `j` for a sextet at bit position `bit`. */
  function Added(bit: nat, v: bv8, j: nat): bv8 {
    if j == bit / 8 then (v << 2) >> (bit % 8)
    else if j == bit / 8 + 1 then (v << 2) << (8 - bit % 8)
    else 0
  }

  lemma AtAppend(vs: seq<bv8>, v: bv8, i: nat)
    ensures At(vs + [v], i) == if i == |vs| then v else At(vs, i)
  {
  }

  lemma Shifts(v: bv8)
    requires Six(v)
    ensures (v << 2) >> 0 == v << 2 && (v << 2) << 8 == 0
    ensures (v << 2) >> 6 == v >> 4 && (v << 2) << 2 == v << 4
    ensures (v << 2) >> 4 == v >> 2 && (v << 2) << 4 == v << 6
    ensures (v << 2) >> 2 == v && (v << 2) << 6 == 0
  {
  }

  /** The position of sextet number 4 k + c. */
  lemma PositionOf(k: nat, c: nat)
    requires c < 4
    ensures (6 * (4 * k + c)) / 8 == 3 * k + 6 * c / 8 && (6 * (4 * k + c)) % 8 == 6 * c % 8
  {
    assert 6 * (4 * k + c) == 8 * (3 * k) + 6 * c;
  }

  /** What a sextet contributes to byte `r` of a group when its high bits, or its low bits, go there. */
  function High(r: nat, v: bv8): bv8 {
    if r == 0 then v << 2 else if r == 1 then v << 4 else v << 6
  }

  function Low(r: nat, v: bv8): bv8 {
    if r == 0 then v >> 4 else if r == 1 then v >> 2 else v
  }

  lemma SamePart(vs: seq<bv8>, v: bv8, q: nat, r: nat, j: nat)
    requires r < 3 && j == 3 * q + r && |vs| != 4 * q + r && |vs| != 4 * q + r + 1
    ensures Part(vs + [v], j) == Part(vs, j)
  {
    PartAt(vs, q);
    PartAt(vs + [v], q);
    AtAppend(vs, v, 4 * q + r);
    AtAppend(vs, v, 4 * q + r + 1);
  }

  /** The two bytes that a new sextet contributes to. */
  lemma HighPart(vs: seq<bv8>, v: bv8, q: nat, r: nat, j: nat)
    requires r < 3 && j == 3 * q + r && |vs| == 4 * q + r && Six(v)
    ensures Part(vs + [v], j) == Part(vs, j) | High(r, v)
  {
    PartAt(vs, q);
    PartAt(vs + [v], q);
    AtAppend(vs, v, 4 * q + r);
    AtAppend(vs, v, 4 * q + r + 1);
  }

  lemma LowPart(vs: seq<bv8>, v: bv8, q: nat, r: nat, j: nat)
    requires r < 3 && j == 3 * q + r && |vs| == 4 * q + r + 1 && Six(v)
    ensures Part(vs + [v], j) == Part(vs, j) | Low(r, v)
  {
    PartAt(vs, q);
    PartAt(vs + [v], q);
    AtAppend(vs, v, 4 * q + r);
    AtAppend(vs, v, 4 * q + r + 1);
  }

  lemma AddedHigh(bit: nat, q: nat, r: nat, v: bv8, j: nat)
    requires r < 3 && Six(v) && bit == 6 * (4 * q + r) && j == 3 * q + r
    ensures Added(bit, v, j) == High(r, v)
  {
    PositionOf(q, r);
    Shifts(v);
  }

  lemma AddedLow(bit: nat, q: nat, r: nat, v: bv8, j: nat)
    requires r < 3 && Six(v) && bit == 6 * (4 * q + r + 1) && j == 3 * q + r
    ensures Added(bit, v, j) == Low(r, v)
  {
    PositionOf(q, r + 1);
    Shifts(v);
  }

  lemma AddedNone(bit: nat, k: nat, c: nat, q: nat, r: nat, v: bv8, j: nat)
    requires c < 4 && r < 3 && Six(v) && bit == 6 * (4 * k + c) && j == 3 * q + r
    requires 4 * k + c != 4 * q + r && 4 * k + c != 4 * q + r + 1
    ensures Added(bit, v, j) == 0
  {
    PositionOf(k, c);
    Shifts(v);
  }

  /** Adding a sextet adds its bits to the bytes that it overlaps. */
  lemma AddSextet(vs: seq<bv8>, v: bv8, j: nat)
    requires Six(v)
    ensures Part(vs + [v], j) == Part(vs, j) | Added(6 * |vs|, v, j)
  {
    var k, c, q, r := |vs| / 4, |vs| % 4, j / 3, j % 3;
    assert |vs| == 4 * k + c;
    assert j == 3 * q + r;
    AddAt(vs, v, 6 * |vs|, k, c, q, r, j);
  }

  lemma AddAt(vs: seq<bv8>, v: bv8, bit: nat, k: nat, c: nat, q: nat, r: nat, j: nat)
    requires Six(v) && |vs| == 4 * k + c && c < 4 && r < 3 && j == 3 * q + r && bit == 6 * |vs|
    ensures Part(vs + [v], j) == Part(vs, j) | Added(bit, v, j)
  {
    if |vs| == 4 * q + r {
      HighPart(vs, v, q, r, j);
      AddedHigh(bit, q, r, v, j);
    } else if |vs| == 4 * q + r + 1 {
      LowPart(vs, v, q, r, j);
      AddedLow(bit, q, r, v, j);
    } else {
      SamePart(vs, v, q, r, j);
      AddedNone(bit, k, c, q, r, v, j);
      OrNothing(Part(vs, j));
    }
  }

  lemma OrNothing(x: bv8)
    ensures x | 0 == x
  {
  }

  /** base64_decode(): the data, or as much as the buffer has room for, and its whole length. */
  method DecodeInto(encoded: seq<bv8>, out: array<bv8>) returns (r: Result<nat>)
    modifies out
    ensures r.Err? <==> Decode(encoded).Err?
    ensures r.Ok? ==> r.value == |Decode(encoded).value|
    ensures r.Ok? ==> forall j | 0 <= j < out.Length && j < r.value :: out[j] == Decode(encoded).value[j]
  {
    for j := 0 to out.Length
      invariant forall i | 0 <= i < j :: out[i] == 0
    {
      out[j] := 0;
    }
    var bit, pads := 0, 0;
    ghost var vs: seq<bv8> := [];
    for n := 0 to |encoded|
      invariant pads <= 2 && bit == 6 * |vs| - 2 * pads
      invariant Scan(encoded[n..], vs, pads) == Scan(encoded, [], 0)
      invariant forall j | 0 <= j < out.Length :: out[j] == Part(vs, j)
    {
      var c := encoded[n];
      assert encoded[n..][0] == c && encoded[n..][1..] == encoded[n + 1..];
      if IsSpace(c) {
      } else if c == PAD {
        if pads >= 2 {
          return Err;
        }
        pads, bit := pads + 1, bit - 2;
      } else {
        if pads > 0 || Value(c) == 64 {
          return Err;
        }
        AddBits(out, vs, bit, Value(c));
        vs, bit := vs + [Value(c)], bit + 6;
      }
    }
    if bit < 0 || bit % 8 != 0 {
      return Err;
    }
    r := Ok(bit / 8);
  }

  method AddBits(out: array<bv8>, ghost vs: seq<bv8>, bit: nat, v: bv8)
    requires Six(v) && bit == 6 * |vs| && forall j | 0 <= j < out.Length :: out[j] == Part(vs, j)
    modifies out
    ensures forall j | 0 <= j < out.Length :: out[j] == Part(vs + [v], j)
  {
    OrBits(out, bit, v);
    forall j | 0 <= j < out.Length
      ensures out[j] == Part(vs + [v], j)
    {
      AddSextet(vs, v, j);
    }
  }

  method OrBits(out: array<bv8>, bit: nat, v: bv8)
    modifies out
    ensures forall j | 0 <= j < out.Length :: out[j] == old(out[j]) | Added(bit, v, j)
  {
    var offset := bit / 8;
    if offset < out.Length {
      out[offset] := out[offset] | ((v << 2) >> (bit % 8));
    }
    if offset + 1 < out.Length {
      out[offset + 1] := out[offset + 1] | ((v << 2) << (8 - bit % 8));
    }
  }
}
