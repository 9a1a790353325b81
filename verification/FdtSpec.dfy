/** Abstract device trees, what it means for a buffer to serialise one, and what the readers then return. */
module FdtSpec {
  import opened Basics
  import opened FdtFormat
  import opened FdtWalk
  import opened FdtTree

  datatype Entry = Entry(name: seq<byte>, data: seq<byte>)

  datatype Tree = Tree(name: seq<byte>, props: seq<Entry>, kids: seq<Tree>)

  /** The properties of an element list, with names taken from the strings block. */
  function PropsOf(names: seq<byte>, e: Elems): seq<Entry>
    decreases e
  {
    match e
    case Nil => []
    case Nop(rest) => PropsOf(names, rest)
    case Prop(nameOff, data, _, rest) => [Entry(CStr(names, nameOff), data)] + PropsOf(names, rest)
    case Node(_, _, _, rest) => PropsOf(names, rest)
  }

  /** The trees of the nodes of an element list. */
  function KidsOf(names: seq<byte>, e: Elems): seq<Tree>
    decreases e
  {
    match e
    case Nil => []
    case Nop(rest) => KidsOf(names, rest)
    case Prop(_, _, _, rest) => KidsOf(names, rest)
    case Node(n, _, body, rest) => [Tree(n, PropsOf(names, body), KidsOf(names, body))] + KidsOf(names, rest)
  }

  // From bytes to tokens.

  /** Every property name lies within the strings block. */
  predicate NamesIn(e: Elems, stringsLen: nat) {
    match e
    case Nil => true
    case Nop(rest) => NamesIn(rest, stringsLen)
    case Prop(nameOff, _, _, rest) => nameOff < stringsLen && NamesIn(rest, stringsLen)
    case Node(_, _, body, rest) => NamesIn(body, stringsLen) && NamesIn(rest, stringsLen)
  }

  /** The strings block lies in the buffer and, unless it is empty, ends with a NUL, as fdt_parse() ensures. */
  predicate StringsOk(f: Fdt) {
    && f.strings + f.stringsLen <= |f.raw|
    && (f.stringsLen == 0 || f.raw[f.strings + f.stringsLen - 1] == 0)
  }

  function Names(f: Fdt): seq<byte>
    requires StringsOk(f)
  {
    f.raw[f.strings..f.strings + f.stringsLen]
  }

  /** A string of the strings block ends within it. */
  lemma {:induction false} CStrInBlock(raw: seq<byte>, base: nat, len: nat, i: nat)
    requires base + len <= |raw| && i < len && raw[base + len - 1] == 0
    ensures CStr(raw, base + i) == CStr(raw[base..base + len], i)
    decreases len - i
  {
    var names := raw[base..base + len];
    assert names[i] == raw[base + i];
    if raw[base + i] != 0 {
      assert i + 1 < len;
      CStrInBlock(raw, base, len, i + 1);
    }
  }

  /** The structure block holds the encoding of `e` at `off`. */
  predicate Sits(f: Fdt, off: nat, e: Elems) {
    && Pos(f, off) && StringsOk(f) && Wf(e) && NamesIn(e, f.stringsLen)
    && Holds(f, off, Enc(e)) && off + 4 * Size(e) <= f.len
  }

  lemma TokenIs(f: Fdt, off: nat, d: Desc)
    requires Pos(f, off) && Describe(f, off) == Ok(d) && d.next <= f.len
    ensures off in TokensOf(f) && TokensOf(f)[off] == d
  {
    TokensFromAt(f, 0, off);
  }

  /** Whole words beyond a token position is a token position. */
  lemma PosPlus(f: Fdt, off: nat, words: nat)
    requires Pos(f, off) && off + 4 * words <= f.len
    ensures Pos(f, off + 4 * words)
  {
  }

  lemma NopToken(f: Fdt, off: nat)
    requires Pos(f, off) && off + 4 <= f.len && Holds(f, off, BE32(FDT_NOP))
    ensures off in TokensOf(f) && TokensOf(f)[off] == Desc(off, off + 4, None, None, 0, 0)
  {
    DescribeNop(f, off);
    TokenIs(f, off, Desc(off, off + 4, None, None, 0, 0));
  }

  lemma EndToken(f: Fdt, end: nat, next: nat)
    requires Pos(f, end) && next == end + 4 <= f.len && Holds(f, end, BE32(FDT_END_NODE))
    ensures end in TokensOf(f) && TokensOf(f)[end] == Desc(end, next, None, None, 0, -1)
  {
    DescribeEnd(f, end);
    TokenIs(f, end, Desc(end, next, None, None, 0, -1));
  }

  lemma BeginToken(f: Fdt, off: nat, name: seq<byte>, pad: seq<byte>, inner: nat)
    requires 0 !in name && |pad| == Pad4(|name| + 1) && inner == NodeInner(off, name)
    requires Pos(f, off) && Holds(f, off, NodeHead(name, pad)) && inner <= f.len
    ensures off in TokensOf(f) && TokensOf(f)[off] == Desc(off, inner, Some(name), None, 0, 1)
  {
    HeadAligned(name, pad);
    DescribeNode(f, off, name, pad);
    TokenIs(f, off, Desc(off, inner, Some(name), None, 0, 1));
  }

  /** The description of a property. */
  function PropDesc(off: nat, next: nat, name: seq<byte>, len: nat): Desc {
    Desc(off, next, Some(name), Some(off + 12), len, 0)
  }

  lemma PropertyDescribed(f: Fdt, off: nat, nameOff: nat, data: seq<byte>, pad: seq<byte>, next: nat, name: seq<byte>)
    requires nameOff < WORD_SPACE && |data| < WORD_SPACE && |pad| == Pad4(|data|) && next == PropNext(off, data)
    requires StringsOk(f) && nameOff < f.stringsLen && name == CStr(f.raw, f.strings + nameOff)
    requires Holds(f, off, PropToken(nameOff, data, pad)) && next <= f.len
    ensures off <= f.len
    ensures Describe(f, off) == Ok(PropDesc(off, next, name, |data|))
  {
    PropAligned(nameOff, data, pad);
    DescribeProp(f, off, nameOff, data, pad, name, off + 12, next);
  }

  lemma PropertyToken(f: Fdt, off: nat, nameOff: nat, data: seq<byte>, pad: seq<byte>, next: nat)
    requires nameOff < WORD_SPACE && |data| < WORD_SPACE && |pad| == Pad4(|data|) && next == PropNext(off, data)
    requires Pos(f, off) && StringsOk(f) && nameOff < f.stringsLen
    requires Holds(f, off, PropToken(nameOff, data, pad)) && next <= f.len
    ensures off in TokensOf(f)
    ensures TokensOf(f)[off] == PropDesc(off, next, CStr(Names(f), nameOff), |data|)
  {
    var name := CStr(Names(f), nameOff);
    CStrInBlock(f.raw, f.strings, f.stringsLen, nameOff);
    PropertyDescribed(f, off, nameOff, data, pad, next, name);
    TokenIs(f, off, PropDesc(off, next, name, |data|));
  }

  /** Where a property lies in the buffer. */
  lemma SitsProp(f: Fdt, off: nat, e: Elems, next: nat)
    requires Sits(f, off, e) && e.Prop? && next == PropNext(off, e.data)
    ensures Holds(f, off, PropToken(e.nameOff, e.data, e.pad)) && Holds(f, off + 12, e.data)
    ensures Sits(f, next, e.rest)
  {
    PropAligned(e.nameOff, e.data, e.pad);
    SplitProp(f, off, PropToken(e.nameOff, e.data, e.pad), Enc(e.rest), next);
    PropFields(f, off, e.nameOff, e.data, e.pad);
    PosPlus(f, off, 3 + Words(|e.data|));
  }

  lemma SplitProp(f: Fdt, off: nat, token: seq<byte>, rest: seq<byte>, next: nat)
    requires Holds(f, off, token + rest) && next == off + |token|
    ensures Holds(f, off, token) && Holds(f, next, rest)
  {
    HoldsSplit(f, off, token, rest);
  }

  /** Where the parts of a node lie in the buffer. */
  lemma SitsNode(f: Fdt, off: nat, e: Elems, inner: nat, end: nat, next: nat)
    requires Sits(f, off, e) && e.Node?
    requires inner == NodeInner(off, e.name) && end == NodeEnd(off, e.name, e.body) && next == NodeNext(off, e.name, e.body)
    ensures Holds(f, off, NodeHead(e.name, e.pad)) && inner <= f.len
    ensures Pos(f, end) && Holds(f, end, BE32(FDT_END_NODE)) && next <= f.len
    ensures Sits(f, inner, e.body) && Sits(f, next, e.rest)
  {
    var h, body, rest := NodeHead(e.name, e.pad), Enc(e.body), Enc(e.rest);
    EncSize(e.body);
    HeadAligned(e.name, e.pad);
    SplitNode(f, off, h, body, rest, inner, end, next);
    PosPlus(f, off, 1 + Words(|e.name| + 1));
    PosPlus(f, inner, Size(e.body));
    PosPlus(f, end, 1);
  }

  lemma SplitNode(f: Fdt, off: nat, h: seq<byte>, body: seq<byte>, rest: seq<byte>, inner: nat, end: nat, next: nat)
    requires Holds(f, off, h + (body + (BE32(FDT_END_NODE) + rest)))
    requires inner == off + |h| && end == inner + |body| && next == end + 4
    ensures Holds(f, off, h) && Holds(f, inner, body) && Holds(f, end, BE32(FDT_END_NODE)) && Holds(f, next, rest)
  {
    HoldsSplit(f, off, h, body + (BE32(FDT_END_NODE) + rest));
    HoldsSplit(f, inner, body, BE32(FDT_END_NODE) + rest);
    HoldsSplit(f, end, BE32(FDT_END_NODE), rest);
  }

  lemma SitsNop(f: Fdt, off: nat, e: Elems)
    requires Sits(f, off, e) && e.Nop?
    ensures Holds(f, off, BE32(FDT_NOP)) && off + 4 <= f.len && Sits(f, off + 4, e.rest)
  {
    HoldsSplit(f, off, BE32(FDT_NOP), Enc(e.rest));
  }

  /** Reading the bytes of an encoding gives its tokens. */
  lemma {:induction false} SitsReads(f: Fdt, off: nat, e: Elems)
    requires Sits(f, off, e)
    ensures Reads(TokensOf(f), Names(f), off, e)
    decreases e
  {
    match e
    case Nil =>
    case Nop(rest) =>
      SitsNop(f, off, e);
      NopToken(f, off);
      SitsReads(f, off + 4, rest);
    case Prop(nameOff, data, pad, rest) =>
      var next := PropNext(off, data);
      SitsProp(f, off, e, next);
      PropertyToken(f, off, nameOff, data, pad, next);
      SitsReads(f, next, rest);
    case Node(n, pad, body, rest) =>
      var inner, end, next := NodeInner(off, n), NodeEnd(off, n, body), NodeNext(off, n, body);
      SitsNode(f, off, e, inner, end, next);
      BeginToken(f, off, n, pad, inner);
      EndToken(f, end, next);
      SitsReads(f, inner, body);
      SitsReads(f, next, rest);
  }
}
