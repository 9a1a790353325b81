/** The flattened device tree format: bytes, tokens, and the trees they encode. */
module FdtFormat {
  import opened Basics

  datatype Error = EINVAL | ENOENT | ENOTSUP | ENOMEM

  datatype Result<+T> = Ok(value: T) | Err(error: Error)

  const FDT_BEGIN_NODE: nat := 1
  const FDT_END_NODE: nat := 2
  const FDT_PROP: nat := 3
  const FDT_NOP: nat := 4
  const FDT_END: nat := 9

  const WORD_SPACE: nat := 0x1_0000_0000

  // Bytes.

  /** The byte at `i`; memory past the end of the buffer reads as zero. */
  function At(raw: seq<byte>, i: nat): byte {
    if i < |raw| then raw[i] else 0
  }

  /** The big-endian 32-bit word at `i`. */
  function Word(raw: seq<byte>, i: nat): (r: nat)
    ensures r < WORD_SPACE
  {
    ((At(raw, i) * 256 + At(raw, i + 1)) * 256 + At(raw, i + 2)) * 256 + At(raw, i + 3)
  }

  function BE32(n: nat): (r: seq<byte>)
    requires n < WORD_SPACE
    ensures |r| == 4
  {
    [n / 0x100_0000, (n / 0x1_0000) % 256, (n / 256) % 256, n % 256]
  }

  lemma WordOfBE32(raw: seq<byte>, i: nat, n: nat)
    requires n < WORD_SPACE && i + 4 <= |raw| && raw[i..i + 4] == BE32(n)
    ensures Word(raw, i) == n
  {
    var b := raw[i..i + 4];
    assert raw[i] == b[0] && raw[i + 1] == b[1] && raw[i + 2] == b[2] && raw[i + 3] == b[3];
    BE32Value(n);
  }

  lemma BE32Value(n: nat)
    requires n < WORD_SPACE
    ensures var b := BE32(n);
            var b0: int, b1: int, b2: int, b3: int := b[0], b[1], b[2], b[3];
            ((b0 * 256 + b1) * 256 + b2) * 256 + b3 == n
  {
    var x := n / 256;
    var y := x / 256;
    assert n == 256 * x + n % 256 && x == 256 * y + x % 256;
    assert y == n / 0x1_0000 && y / 256 == n / 0x100_0000;
    assert y == 256 * (y / 256) + y % 256;
  }

  /** The NUL-terminated string at `i` (or up to the end of the buffer). */
  function CStr(raw: seq<byte>, i: nat): (r: seq<byte>)
    ensures 0 !in r
    decreases if i < |raw| then |raw| - i else 0
  {
    if At(raw, i) == 0 then [] else [raw[i]] + CStr(raw, i + 1)
  }

  lemma {:induction false} CStrIs(raw: seq<byte>, i: nat, name: seq<byte>)
    requires 0 !in name && i + |name| + 1 <= |raw| && raw[i..i + |name| + 1] == name + [0]
    ensures CStr(raw, i) == name
    decreases |name|
  {
    var s := raw[i..i + |name| + 1];
    assert raw[i] == s[0];
    if name != [] {
      assert s[0] == name[0];
      assert name[0] in name;
      assert raw[i + 1..i + 1 + |name[1..]| + 1] == s[1..];
      assert s[1..] == name[1..] + [0];
      CStrIs(raw, i + 1, name[1..]);
    } else {
      assert s[0] == 0;
    }
  }

  /** The number of 32-bit words that `n` bytes occupy. */
  function Words(n: nat): (r: nat)
    ensures n <= 4 * r < n + 4
  {
    (n + 3) / 4
  }

  /** Rounding up to the alignment of the structure block. */
  function Round4(n: nat): nat {
    4 * Words(n)
  }

  function Pad4(n: nat): nat {
    Round4(n) - n
  }

  lemma Round4Add8(n: nat)
    ensures Round4(8 + n) == 8 + Round4(n)
  {
  }

  /** Rounding stays within an aligned bound. */
  lemma Round4Within(n: nat, m: nat)
    requires n <= m && m % 4 == 0
    ensures Round4(n) <= m
  {
  }

  /** Rounding up to the maximum alignment of any block. */
  function Round8(n: nat): (r: nat)
    ensures n <= r < n + 8
  {
    8 * ((n + 7) / 8)
  }

  // Descriptors.

  /** A device tree in memory: the buffer and the block positions recorded from its header. */
  datatype Fdt = Fdt(raw: seq<byte>, len: nat, structure: nat, strings: nat, stringsLen: nat)

  /** A token: `data` is the offset of property data, `depth` the change of depth. */
  datatype Desc = Desc(offset: nat, next: nat, name: Option<seq<byte>>, data: Option<nat>, len: nat, depth: int)

  /** fdt_describe() */
  function Describe(f: Fdt, offset: nat): (r: Result<Desc>)
    requires offset <= f.len
    ensures r.Ok? ==> r.value.offset == offset && offset < r.value.next
  {
    if f.len - offset < 4 then
      Err(EINVAL)
    else
      var remaining := f.len - offset - 4;
      var token := Word(f.raw, f.structure + offset);
      var data := f.structure + offset + 4;
      if token == FDT_BEGIN_NODE then
        var name := CStr(f.raw, data);
        if remaining < |name| + 1 then Err(EINVAL)
        else Ok(Desc(offset, offset + 4 + Round4(|name| + 1), Some(name), None, 0, 1))
      else if token == FDT_END_NODE then
        Ok(Desc(offset, offset + 4, None, None, 0, -1))
      else if token == FDT_PROP then
        if remaining < 8 then Err(EINVAL)
        else
          var len := Word(f.raw, data);
          var nameOff := Word(f.raw, data + 4);
          if remaining < 8 + len || nameOff > f.stringsLen then Err(EINVAL)
          else Ok(Desc(offset, offset + 4 + Round4(8 + len),
                       Some(CStr(f.raw, f.strings + nameOff)), Some(offset + 12), len, 0))
      else if token == FDT_NOP then
        Ok(Desc(offset, offset + 4, None, None, 0, 0))
      else
        Err(EINVAL)
  }

  /** Tokens are whole words. */
  lemma DescribeAligned(f: Fdt, offset: nat)
    requires offset <= f.len && offset % 4 == 0 && Describe(f, offset).Ok?
    ensures Describe(f, offset).value.next % 4 == 0
  {
  }

  /** In a tree of whole words, the next token never starts past the end, whatever the bytes are. */
  lemma DescribeStaysInside(f: Fdt, offset: nat)
    requires f.len % 4 == 0 && offset <= f.len && offset % 4 == 0 && Describe(f, offset).Ok?
    ensures Describe(f, offset).value.next <= f.len
  {
    var remaining := f.len - offset - 4;
    var data := f.structure + offset + 4;
    assert remaining % 4 == 0;
    if Describe(f, offset).value.name.Some? {
      var n := if Describe(f, offset).value.data.None? then |CStr(f.raw, data)| + 1 else 8 + Word(f.raw, data);
      Round4Within(n, remaining);
    }
  }

  /** Describing a token of any tree of length `len` stays within that length. */
  ghost predicate StaysInside(len: nat) {
    forall f: Fdt, offset: nat | f.len == len && offset <= len && offset % 4 == 0 && Describe(f, offset).Ok? ::
      Describe(f, offset).value.next <= len
  }

  /** A tree of length `len` whose last token is a node with an empty name, if `len` is not whole words. */
  lemma PaddedPastEnd(len: nat) returns (f: Fdt, offset: nat)
    requires len % 4 != 0 && len > 4
    ensures f.len == len && offset <= len && offset % 4 == 0
    ensures Describe(f, offset).Ok? && Describe(f, offset).value.next > len
  {
    offset := len - len % 4 - 4;
    var raw := seq(len, i => if i == offset + 3 then 1 else 0);
    f := Fdt(raw, len, 0, 0, 0);
    assert Word(raw, offset) == 1;
    assert CStr(raw, offset + 4) == [];
  }

  /**
    fdt_describe() asserts that the next token starts within the tree. That holds for
    every tree of a given length exactly when the length is a whole number of words (or
    too small for any token); fdt_parse() does not check this.
   */
  lemma StaysInsideExactly(len: nat)
    ensures StaysInside(len) <==> len % 4 == 0 || len < 4
  {
    if len % 4 == 0 {
      forall f: Fdt, offset: nat | f.len == len && offset <= len && offset % 4 == 0 && Describe(f, offset).Ok?
        ensures Describe(f, offset).value.next <= len
      {
        DescribeStaysInside(f, offset);
      }
    } else if len > 4 {
      var f, offset := PaddedPastEnd(len);
    }
  }

  // Element lists: what a structure block encodes.

  /** The contents of a node (or of the structure block): properties, child nodes and NOPs, in order. */
  datatype Elems =
    | Nil
    | Nop(rest: Elems)
    | Prop(nameOff: nat, data: seq<byte>, pad: seq<byte>, rest: Elems)
    | Node(name: seq<byte>, pad: seq<byte>, body: Elems, rest: Elems)

  /** Lengths fit their fields and padding has the required length (its bytes are arbitrary). */
  predicate Wf(e: Elems) {
    match e
    case Nil => true
    case Nop(rest) => Wf(rest)
    case Prop(nameOff, data, pad, rest) =>
      nameOff < WORD_SPACE && |data| < WORD_SPACE && |pad| == Pad4(|data|) && Wf(rest)
    case Node(name, pad, body, rest) =>
      0 !in name && |pad| == Pad4(|name| + 1) && Wf(body) && Wf(rest)
  }

  /** No properties at this level. */
  predicate NoProps(e: Elems) {
    match e
    case Nil => true
    case Nop(rest) => NoProps(rest)
    case Prop(_, _, _, _) => false
    case Node(_, _, _, rest) => NoProps(rest)
  }

  /** In every node, properties precede child nodes. */
  predicate PropsFirst(e: Elems) {
    match e
    case Nil => true
    case Nop(rest) => PropsFirst(rest)
    case Prop(_, _, _, rest) => PropsFirst(rest)
    case Node(_, _, body, rest) => PropsFirst(body) && NoProps(rest) && PropsFirst(rest)
  }

  function NodeHead(name: seq<byte>, pad: seq<byte>): (r: seq<byte>)
    ensures |r| == 5 + |name| + |pad|
  {
    BE32(FDT_BEGIN_NODE) + (name + [0]) + pad
  }

  function PropToken(nameOff: nat, data: seq<byte>, pad: seq<byte>): (r: seq<byte>)
    requires nameOff < WORD_SPACE && |data| < WORD_SPACE
    ensures |r| == 12 + |data| + |pad|
  {
    BE32(FDT_PROP) + BE32(|data|) + BE32(nameOff) + data + pad
  }

  /** The bytes of an element list. */
  function Enc(e: Elems): seq<byte>
    requires Wf(e)
  {
    match e
    case Nil => []
    case Nop(rest) => BE32(FDT_NOP) + Enc(rest)
    case Prop(nameOff, data, pad, rest) => PropToken(nameOff, data, pad) + Enc(rest)
    case Node(name, pad, body, rest) => NodeHead(name, pad) + (Enc(body) + (BE32(FDT_END_NODE) + Enc(rest)))
  }

  lemma HeadAligned(name: seq<byte>, pad: seq<byte>)
    requires |pad| == Pad4(|name| + 1)
    ensures |NodeHead(name, pad)| == 4 + Round4(|name| + 1)
  {
  }

  lemma PropAligned(nameOff: nat, data: seq<byte>, pad: seq<byte>)
    requires nameOff < WORD_SPACE && |data| < WORD_SPACE && |pad| == Pad4(|data|)
    ensures |PropToken(nameOff, data, pad)| == 12 + Round4(|data|) == 4 + Round4(8 + |data|)
  {
    Round4Add8(|data|);
  }

  /** The number of words in the encoding of an element list. */
  function Size(e: Elems): nat {
    match e
    case Nil => 0
    case Nop(rest) => 1 + Size(rest)
    case Prop(_, data, _, rest) => 3 + Words(|data|) + Size(rest)
    case Node(name, _, body, rest) => 1 + Words(|name| + 1) + Size(body) + 1 + Size(rest)
  }

  lemma {:induction false} EncSize(e: Elems)
    requires Wf(e)
    ensures |Enc(e)| == 4 * Size(e)
  {
    match e
    case Nil =>
    case Nop(rest) => EncSize(rest);
    case Prop(nameOff, data, pad, rest) => EncSize(rest);
    case Node(name, pad, body, rest) =>
      EncSize(body);
      EncSize(rest);
  }

  /** The structure block holds `bs` at offset `off`. */
  predicate Holds(f: Fdt, off: nat, bs: seq<byte>) {
    f.structure + off + |bs| <= |f.raw| && f.raw[f.structure + off..f.structure + off + |bs|] == bs
  }

  lemma HoldsSplit(f: Fdt, off: nat, a: seq<byte>, b: seq<byte>)
    ensures Holds(f, off, a + b) <==> Holds(f, off, a) && Holds(f, off + |a|, b)
  {
    var o := f.structure + off;
    if o + |a| + |b| <= |f.raw| {
      var s := f.raw[o..o + |a| + |b|];
      assert s[..|a|] == f.raw[o..o + |a|] && s[|a|..] == f.raw[o + |a|..o + |a| + |b|];
      assert s == s[..|a|] + s[|a|..];
      assert (a + b)[..|a|] == a && (a + b)[|a|..] == b;
    }
  }

  // Describing the tokens of an encoding.

  lemma DescribeNop(f: Fdt, off: nat)
    requires off + 4 <= f.len && Holds(f, off, BE32(FDT_NOP))
    ensures Describe(f, off) == Ok(Desc(off, off + 4, None, None, 0, 0))
  {
    WordOfBE32(f.raw, f.structure + off, FDT_NOP);
  }

  lemma DescribeEnd(f: Fdt, off: nat)
    requires off + 4 <= f.len && Holds(f, off, BE32(FDT_END_NODE))
    ensures Describe(f, off) == Ok(Desc(off, off + 4, None, None, 0, -1))
  {
    WordOfBE32(f.raw, f.structure + off, FDT_END_NODE);
  }

  lemma DescribeNode(f: Fdt, off: nat, name: seq<byte>, pad: seq<byte>)
    requires 0 !in name && |pad| == Pad4(|name| + 1)
    requires Holds(f, off, NodeHead(name, pad)) && off + |NodeHead(name, pad)| <= f.len
    ensures Describe(f, off) == Ok(Desc(off, off + |NodeHead(name, pad)|, Some(name), None, 0, 1))
  {
    var a, b := BE32(FDT_BEGIN_NODE), name + [0];
    HoldsSplit(f, off, a + b, pad);
    HoldsSplit(f, off, a, b);
    WordOfBE32(f.raw, f.structure + off, FDT_BEGIN_NODE);
    CStrIs(f.raw, f.structure + off + 4, name);
  }

  /** The fields of a property token, as they are read back. */
  lemma PropFields(f: Fdt, off: nat, nameOff: nat, data: seq<byte>, pad: seq<byte>)
    requires nameOff < WORD_SPACE && |data| < WORD_SPACE
    requires Holds(f, off, PropToken(nameOff, data, pad))
    ensures Word(f.raw, f.structure + off) == FDT_PROP
    ensures Word(f.raw, f.structure + off + 4) == |data|
    ensures Word(f.raw, f.structure + off + 8) == nameOff
    ensures Holds(f, off + 12, data)
  {
    var a, b, c := BE32(FDT_PROP), BE32(|data|), BE32(nameOff);
    HoldsSplit(f, off, a + b + c + data, pad);
    HoldsSplit(f, off, a + b + c, data);
    HoldsSplit(f, off, a + b, c);
    HoldsSplit(f, off, a, b);
    WordOfBE32(f.raw, f.structure + off, FDT_PROP);
    WordOfBE32(f.raw, f.structure + off + 4, |data|);
    WordOfBE32(f.raw, f.structure + off + 8, nameOff);
  }

  /** What is described when a property token is read. */
  lemma DescribeFields(f: Fdt, off: nat, len: nat, nameOff: nat)
    requires off + 12 + len <= f.len && nameOff <= f.stringsLen
    requires Word(f.raw, f.structure + off) == FDT_PROP
    requires Word(f.raw, f.structure + off + 4) == len && Word(f.raw, f.structure + off + 8) == nameOff
    ensures Describe(f, off).Ok?
    ensures var d := Describe(f, off).value;
            && d.name == Some(CStr(f.raw, f.strings + nameOff)) && d.data == Some(off + 12)
            && d.len == len && d.depth == 0 && d.next == off + 4 + Round4(8 + len)
  {
  }

  lemma DescribeProp(f: Fdt, off: nat, nameOff: nat, data: seq<byte>, pad: seq<byte>, name: seq<byte>, at: nat, next: nat)
    requires nameOff < WORD_SPACE && |data| < WORD_SPACE && |pad| == Pad4(|data|) && nameOff <= f.stringsLen
    requires name == CStr(f.raw, f.strings + nameOff) && at == off + 12 && next == off + |PropToken(nameOff, data, pad)|
    requires Holds(f, off, PropToken(nameOff, data, pad)) && next <= f.len
    ensures Describe(f, off) == Ok(Desc(off, next, Some(name), Some(at), |data|, 0))
  {
    PropFields(f, off, nameOff, data, pad);
    PropAligned(nameOff, data, pad);
    Round4Add8(|data|);
    DescribeFields(f, off, |data|, nameOff);
  }
}
