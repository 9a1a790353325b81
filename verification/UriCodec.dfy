/** Percent-encoding of URI fields, as in section 2.1 of RFC 3986. Characters are unsigned bytes. */
module UriCodec {
  import opened Basics

  const PERCENT: byte := 37

  // Characters.

  predicate IsPrint(c: byte) {
    32 <= c <= 126
  }

  predicate IsSpace(c: byte) {
    c == 32 || 9 <= c <= 13
  }

  predicate IsAlpha(c: byte) {
    65 <= c <= 90 || 97 <= c <= 122
  }

  const SLASH: byte := 47
  const HASH: byte := 35
  const COLON: byte := 58
  const AT: byte := 64
  const QUESTION: byte := 63
  const EQUALS: byte := 61
  const AMPERSAND: byte := 38
  const BRACKET: byte := 93

  /** The URI fields, in the order in which they are formatted. */
  datatype Field = SCHEME | OPAQUE | USER | PASSWORD | HOST | PORT | PATH | EPATH | EQUERY | EFRAGMENT

  /** Fields that hold the encoded form as it was given. */
  predicate Verbatim(f: Field) {
    f == EPATH || f == EQUERY || f == EFRAGMENT
  }

  /** Characters that would change how the field is parsed. */
  function Special(f: Field): set<byte> {
    match f
    case SCHEME => {SLASH, HASH, COLON, AT, QUESTION, EQUALS, AMPERSAND}
    case OPAQUE => {HASH}
    case HOST => {SLASH, HASH, AT, QUESTION}
    case PATH => {HASH, COLON, AT, QUESTION}
    case _ => {SLASH, HASH, COLON, AT, QUESTION}
  }

  /** uri_character_escaped() */
  predicate Escaped(c: byte, f: Field) {
    !IsPrint(c) || c == 32 || (!Verbatim(f) && (c == PERCENT || c in Special(f)))
  }

  /** An upper-case hexadecimal digit. */
  function HexDigit(n: nat): byte
    requires n < 16
  {
    if n < 10 then 48 + n else 55 + n
  }

  function EncodeChar(f: Field, c: byte): seq<byte> {
    if Escaped(c, f) then [PERCENT, HexDigit(c / 16), HexDigit(c % 16)] else [c]
  }

  /** uri_encode() */
  function Encode(f: Field, s: seq<byte>): seq<byte> {
    if s == [] then [] else EncodeChar(f, s[0]) + Encode(f, s[1..])
  }

  /** uri_encode(), as a loop over the raw data. */
  method EncodeField(f: Field, raw: seq<byte>) returns (out: seq<byte>)
    ensures out == Encode(f, raw)
  {
    out := [];
    for i := 0 to |raw|
      invariant out + Encode(f, raw[i..]) == Encode(f, raw)
    {
      var c := raw[i];
      EncodeNext(f, raw, i, out);
      if Escaped(c, f) {
        out := out + [PERCENT, HexDigit(c / 16), HexDigit(c % 16)];
      } else {
        out := out + [c];
      }
    }
  }

  lemma EncodeNext(f: Field, raw: seq<byte>, i: nat, out: seq<byte>)
    requires i < |raw|
    ensures out + Encode(f, raw[i..]) == (out + EncodeChar(f, raw[i])) + Encode(f, raw[i + 1..])
  {
    assert raw[i..][1..] == raw[i + 1..] && raw[i..][0] == raw[i];
    Append3(out, EncodeChar(f, raw[i]), Encode(f, raw[i + 1..]));
  }

  lemma Append3(a: seq<byte>, b: seq<byte>, c: seq<byte>)
    ensures a + (b + c) == (a + b) + c
  {
  }

  /** digit_value(): values that are not digits are at least 16, wrapping below '0'. */
  function DigitValue(c: byte): nat {
    if c >= 97 then c - 87
    else if c >= 65 then c - 55
    else if c > 57 then c
    else if c >= 48 then c - 48
    else 0x1_0000_0000 + c - 48
  }

  /** The digits at the start of a string: their value, and how many there are. */
  function Digits(h: seq<byte>, value: nat): (nat, nat) {
    if h == [] || DigitValue(h[0]) >= 16 then (value, 0)
    else
      var (v, n) := Digits(h[1..], value * 16 + DigitValue(h[0]));
      (v, n + 1)
  }

  /** How many spaces a string starts with. */
  function Spaces(h: seq<byte>): (n: nat)
    ensures n <= |h|
  {
    if h == [] || !IsSpace(h[0]) then 0 else 1 + Spaces(h[1..])
  }

  /** strtoul() in base 16, converted to a character: the character, and how much of the string was used. */
  function Unhex(h: seq<byte>): (byte, nat) {
    var n := Spaces(h);
    var sign := n < |h| && (h[n] == 45 || h[n] == 43);
    var start := if sign then n + 1 else n;
    var (v, digits) := Digits(h[start..], 0);
    ((if sign && h[n] == 45 then 0 - v else v) % 256, start + digits)
  }

  lemma {:induction false} DigitsUsed(h: seq<byte>, value: nat)
    ensures Digits(h, value).1 <= |h|
  {
    if h != [] && DigitValue(h[0]) < 16 {
      DigitsUsed(h[1..], value * 16 + DigitValue(h[0]));
    }
  }

  lemma UnhexUsed(h: seq<byte>)
    ensures Unhex(h).1 <= |h|
  {
    var n := Spaces(h);
    var start := if n < |h| && (h[n] == 45 || h[n] == 43) then n + 1 else n;
    DigitsUsed(h[start..], 0);
  }

  /** The (at most) two characters after a percent sign. */
  function Two(s: seq<byte>): (h: seq<byte>)
    ensures |h| <= 2 && |h| <= |s|
  {
    if |s| <= 2 then s else s[..2]
  }

  /** uri_decode() */
  function Decode(s: seq<byte>): (r: seq<byte>)
    ensures |r| <= |s|
  {
    if s == [] then []
    else if s[0] != PERCENT then [s[0]] + Decode(s[1..])
    else
      UnhexUsed(Two(s[1..]));
      var (c, skip) := Unhex(Two(s[1..]));
      [if skip > 0 then c else PERCENT] + Decode(s[1 + skip..])
  }

  lemma HexValue(n: nat)
    requires n < 16
    ensures DigitValue(HexDigit(n)) == n && !IsSpace(HexDigit(n)) && HexDigit(n) != 45 && HexDigit(n) != 43
  {
  }

  lemma UnhexTwo(c: byte)
    ensures Unhex([HexDigit(c / 16), HexDigit(c % 16)]) == (c, 2)
  {
    var a, b := c / 16, c % 16;
    HexValue(a);
    HexValue(b);
    var h := [HexDigit(a), HexDigit(b)];
    assert h[1..] == [HexDigit(b)] && h[1..][1..] == [];
    assert Digits(h[1..][1..], a * 16 + b) == (a * 16 + b, 0);
    assert Digits(h[1..], a) == (a * 16 + b, 1);
    assert Digits(h, 0) == (a * 16 + b, 2);
    assert h[0..] == h;
  }

  lemma DecodeEscape(c: byte, rest: seq<byte>)
    ensures Decode([PERCENT, HexDigit(c / 16), HexDigit(c % 16)] + rest) == [c] + Decode(rest)
  {
    var h := [HexDigit(c / 16), HexDigit(c % 16)];
    var s := [PERCENT, HexDigit(c / 16), HexDigit(c % 16)] + rest;
    assert s[1..] == h + rest && Two(s[1..]) == h && s[1 + 2..] == rest;
    UnhexTwo(c);
  }

  /** Decoding undoes encoding, for every field that is not kept verbatim. */
  lemma {:induction false} DecodeEncode(f: Field, s: seq<byte>)
    requires !Verbatim(f)
    ensures Decode(Encode(f, s)) == s
  {
    if s != [] {
      DecodeEncode(f, s[1..]);
      if Escaped(s[0], f) {
        DecodeEscape(s[0], Encode(f, s[1..]));
      } else {
        DecodePlain(s[0], Encode(f, s[1..]));
      }
      assert [s[0]] + s[1..] == s;
    }
  }

  lemma DecodePlain(c: byte, rest: seq<byte>)
    requires c != PERCENT
    ensures Decode([c] + rest) == [c] + Decode(rest)
  {
    assert ([c] + rest)[1..] == rest;
  }

  /** An encoded field has no character that is special in it. */
  lemma {:induction false} EncodeAvoids(f: Field, s: seq<byte>, c: byte)
    requires !Verbatim(f) && c in Special(f)
    ensures c !in Encode(f, s)
  {
    if s != [] {
      EncodeAvoids(f, s[1..], c);
    }
  }

  /** Encoding a verbatim field of printable characters leaves it as it is. */
  lemma {:induction false} EncodeVerbatim(f: Field, s: seq<byte>)
    requires Verbatim(f) && forall i | 0 <= i < |s| :: IsPrint(s[i]) && s[i] != 32
    ensures Encode(f, s) == s
  {
    if s != [] {
      EncodeVerbatim(f, s[1..]);
    }
  }

  // Decoding in place.

  /** The string at `i`, up to the NUL. */
  function Str(a: seq<byte>, i: nat): (r: seq<byte>)
    requires i <= |a|
    ensures i + |r| <= |a|
    decreases |a| - i
  {
    if i == |a| || a[i] == 0 then [] else [a[i]] + Str(a, i + 1)
  }

  lemma StrDrop(a: seq<byte>, i: nat, k: nat)
    requires i <= |a| && k <= |Str(a, i)|
    ensures Str(a, i + k) == Str(a, i)[k..]
    decreases k
  {
    if k > 0 {
      StrDrop(a, i + 1, k - 1);
    }
  }

  /** One step of uri_decode(): the character at the start of an encoded string, and how much of it was used. */
  method DecodeStep(a: array<byte>, pos: nat) returns (c: byte, used: nat)
    requires pos < a.Length && a[pos] != 0 && Str(a[..], pos) != []
    ensures 0 < used <= |Str(a[..], pos)|
    ensures Decode(Str(a[..], pos)) == [c] + Decode(Str(a[..], pos)[used..])
  {
    ghost var s := Str(a[..], pos);
    c, used := a[pos], 1;
    if c == PERCENT {
      // The copy of at most two characters, up to the NUL, for strtoul().
      var hex: seq<byte> := [];
      StrDrop(a[..], pos, 1);
      while |hex| < 2 && pos + 1 + |hex| < a.Length && a[pos + 1 + |hex|] != 0
        invariant |hex| <= 2 && |hex| <= |s[1..]| && hex == s[1..][..|hex|]
      {
        StrDrop(a[..], pos, 1 + |hex|);
        hex := hex + [a[pos + 1 + |hex|]];
      }
      StrDrop(a[..], pos, 1 + |hex|);
      assert hex == Two(s[1..]);
      UnhexUsed(hex);
      var (decoded, skip) := Unhex(hex);
      used := 1 + skip;
      if skip > 0 {
        c := decoded;
      }
    }
  }

  /**
    uri_decode_inplace(): the decoded string takes the place of the encoded one. Writing
    never overtakes reading, so the unread input is intact, and nothing outside the
    string changes.
   */
  method DecodeInPlace(a: array<byte>, start: nat) returns (count: nat)
    requires start < a.Length && start + |Str(a[..], start)| < a.Length
    modifies a
    ensures count == |Decode(old(Str(a[..], start)))| && start + count < a.Length
    ensures a[start..start + count] == Decode(old(Str(a[..], start))) && a[start + count] == 0
    ensures forall i | 0 <= i < a.Length && !(start <= i <= start + count) :: a[i] == old(a[i])
  {
    ghost var was, all := a[..], Decode(Str(a[..], start));
    var pos := start;
    count := 0;
    while a[pos] != 0
      invariant InProgress(was, a[..], start, pos, count, all)
      decreases a.Length - pos
    {
      pos := DecodeNext(a, start, pos, count, was, all);
      count := count + 1;
    }
    Finish(was, a[..], start, pos, count, all);
    a[start + count] := 0;
  }

  /** Decode one character, and store it. */
  method DecodeNext(a: array<byte>, start: nat, pos: nat, count: nat, ghost was: seq<byte>, ghost all: seq<byte>) returns (next: nat)
    requires InProgress(was, a[..], start, pos, count, all) && a[pos] != 0
    modifies a
    ensures InProgress(was, a[..], start, next, count + 1, all) && pos < next
  {
    ghost var cur := a[..];
    StrSame(was, cur, pos);
    var c, used := DecodeStep(a, pos);
    Advance(was, cur, start, pos, count, all, c, used);
    a[start + count] := c;
    assert a[..] == cur[start + count := c];
    next := pos + used;
  }

  /** Part of the string has been decoded: what is written and what is yet to be read make up the whole. */
  ghost predicate InProgress(was: seq<byte>, cur: seq<byte>, start: nat, pos: nat, count: nat, all: seq<byte>) {
    && start + count <= pos < |was| == |cur| && pos + |Str(was, pos)| < |was|
    && (forall i | 0 <= i < |was| && !(start <= i < start + count) :: cur[i] == was[i])
    && cur[start..start + count] + Decode(Str(was, pos)) == all
  }

  lemma Advance(was: seq<byte>, cur: seq<byte>, start: nat, pos: nat, count: nat, all: seq<byte>, c: byte, used: nat)
    requires InProgress(was, cur, start, pos, count, all) && 0 < used <= |Str(was, pos)|
    requires Decode(Str(was, pos)) == [c] + Decode(Str(was, pos)[used..])
    ensures InProgress(was, cur[start + count := c], start, pos + used, count + 1, all)
  {
    var done := cur[start..start + count];
    StrDrop(was, pos, used);
    Extend(cur, start, count, c);
    Regroup(done, c, Decode(Str(was, pos + used)));
  }

  lemma Extend(cur: seq<byte>, start: nat, count: nat, c: byte)
    requires start + count < |cur|
    ensures cur[start + count := c][start..start + count + 1] == cur[start..start + count] + [c]
  {
  }

  lemma Regroup(s: seq<byte>, c: byte, t: seq<byte>)
    ensures s + ([c] + t) == (s + [c]) + t
  {
  }

  lemma Finish(was: seq<byte>, cur: seq<byte>, start: nat, pos: nat, count: nat, all: seq<byte>)
    requires InProgress(was, cur, start, pos, count, all) && cur[pos] == 0
    ensures cur[start..start + count] == all
  {
    assert was[pos] == 0;
    assert Str(was, pos) == [];
  }

  /** The string at a position depends only on what follows. */
  lemma {:induction false} StrSame(a: seq<byte>, b: seq<byte>, i: nat)
    requires |a| == |b| && i <= |a| && forall k | i <= k < |a| :: a[k] == b[k]
    ensures Str(a, i) == Str(b, i)
    decreases |a| - i
  {
    if i < |a| {
      StrSame(a, b, i + 1);
    }
  }
}
