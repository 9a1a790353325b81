/** What the editor's changes of bytes do to the tree. */
module FdtUpdate {
  import opened Basics
  import opened FdtFormat
  import opened FdtWalk
  import opened FdtTree
  import opened FdtSpec
  import opened FdtRead
  import opened FdtReadLaws
  import opened FdtSplice
  import opened FdtBlob
  import opened FdtEdit

  /** The structure block begins with the encoding of `e` and an end token. */
  predicate Leads(s: seq<byte>, e: Elems) {
    Wf(e) && Enc(e) + BE32(FDT_END) <= s
  }

  /** The strings block ends with a terminator, if there is anything in it. */
  predicate Terminated(names: seq<byte>) {
    names == [] || names[|names| - 1] == 0
  }

  /** `e` is the content of a structure block: one root node, properties first, names within the strings block. */
  predicate Shaped(e: Elems, names: seq<byte>) {
    && Terminated(names) && NamesIn(e, |names|)
    && NoProps(e) && PropsFirst(e) && |KidsOf(names, e)| == 1
  }

  /** The blob encodes `e`. */
  predicate Encodes(b: Blob, e: Elems, rsv: nat) {
    Layout(b, rsv) && Leads(StructBytes(b), e) && Shaped(e, StringBytes(b))
  }

  lemma LeadsHolds(f: Fdt, e: Elems, l: nat)
    requires f.structure + l <= |f.raw| && Leads(Block(f.raw, f.structure, l), e)
    ensures Holds(f, 0, Enc(e)) && Holds(f, 4 * Size(e), BE32(FDT_END)) && 4 * Size(e) + 4 <= l
  {
    var s, x := Block(f.raw, f.structure, l), Enc(e) + BE32(FDT_END);
    EncSize(e);
    assert x == s[..|x|] == f.raw[f.structure..f.structure + |x|];
    HoldsSplit(f, 0, Enc(e), BE32(FDT_END));
  }

  /** An encoded tree is one that the readers understand. */
  lemma EncodesRepresents(b: Blob, e: Elems, rsv: nat)
    requires Encodes(b, e, rsv)
    ensures Represents(View(b), e) && Names(View(b)) == StringBytes(b)
  {
    LeadsHolds(View(b), e, b.structureLen);
  }

  /** A replacement in a prefix. */
  lemma PrefixReplaced(a: seq<byte>, c: seq<byte>, end: seq<byte>, s: seq<byte>, t: seq<byte>, o: nat, was: seq<byte>, x: seq<byte>)
    requires a + end <= s && Replaces(a, c, o, was, x) && o + |was| <= |s| && t == Splice(s, o, |was|, x)
    ensures c + end <= t
  {
    var z := s[|a|..];
    assert s == a + z;
    ReplacesHead(a, z, c, o, was, x);
    assert end <= z by {
      assert (a + end)[|a|..] == end;
    }
    assert c + end <= c + z;
  }

  /** Replacing a part of the encoding that is a replacement in the contents of a node. */
  lemma NestedReplaced(s: seq<byte>, t: seq<byte>, a: seq<byte>, c: seq<byte>, end: seq<byte>, p: nat,
                       body: seq<byte>, body': seq<byte>, i: nat, was: seq<byte>, x: seq<byte>)
    requires a + end <= s && Replaces(a, c, p, body, body') && Replaces(body, body', i, was, x)
    requires p + i + |was| <= |s| && t == Splice(s, p + i, |was|, x)
    ensures c + end <= t
  {
    ReplacesNested(a, c, p, body, body', i, was, x, p + i);
    PrefixReplaced(a, c, end, s, t, p + i, was, x);
  }

  /** A replacement in the contents of the node at `path`, carried out in the structure block. */
  lemma BodyReplaced(s: seq<byte>, t: seq<byte>, e: Elems, path: seq<nat>, b: Elems, i: nat, was: seq<byte>, x: seq<byte>,
                     at: nat, d: nat)
    requires Leads(s, e) && IsPath(e, path) && Wf(b) && Wf(PathNode(e, path))
    requires Replaces(Enc(PathNode(e, path).body), Enc(b), i, was, x) && at == BodyAt(e, path) + i && d == |was|
    requires at + d <= |s| && t == Splice(s, at, d, x)
    ensures Leads(t, UpdateBody(e, path, b))
  {
    UpdateSplices(e, path, b);
    NestedReplaced(s, t, Enc(e), Enc(UpdateBody(e, path, b)), BE32(FDT_END), BodyAt(e, path),
                   Enc(PathNode(e, path).body), Enc(b), i, was, x);
  }

  /** Updating the contents of a node keeps its place. */
  lemma {:induction false} UpdateKeepsPath(e: Elems, off: nat, path: seq<nat>, b: Elems)
    requires IsPath(e, path)
    ensures IsPath(UpdateBody(e, path, b), path)
    ensures PathOff(UpdateBody(e, path, b), off, path) == PathOff(e, off, path)
    ensures var n, m := PathNode(e, path), PathNode(UpdateBody(e, path, b), path); m.name == n.name && m.body == b
    decreases e
  {
    match e
    case Nop(rest) => UpdateKeepsPath(rest, off + 4, path, b);
    case Prop(_, data, _, rest) => UpdateKeepsPath(rest, PropNext(off, data), path, b);
    case Node(n, _, body, rest) =>
      if path[0] > 0 {
        UpdateKeepsPath(rest, NodeNext(off, n, body), Down(path), b);
      } else if |path| > 1 {
        UpdateKeepsPath(body, NodeInner(off, n), path[1..], b);
      }
  }

  /** Updating the contents of a node updates the tree at its path. */
  lemma ShapedUpdate(e: Elems, names: seq<byte>, path: seq<nat>, b: Elems)
    requires Shaped(e, names) && IsPath(e, path) && NamesIn(b, |names|) && PropsFirst(b)
    ensures var u := UpdateBody(e, path, b); Shaped(u, names) && IsTreePath(KidsOf(names, e), path)
    ensures KidsOf(names, UpdateBody(e, path, b))
            == PutAt(KidsOf(names, e), path, Tree(PathNode(e, path).name, PropsOf(names, b), KidsOf(names, b)))
  {
    UpdateKeeps(e, path, b, |names|);
    UpdateTrees(names, e, path, b);
  }

  // The elements that the editor writes.

  lemma {:induction false} NopsEnc(n: nat)
    ensures Wf(Nops(n)) && Enc(Nops(n)) == NopBytes(n)
  {
    if n > 0 {
      NopsEnc(n - 1);
    }
  }

  lemma NopsDrop(n: nat, k: nat)
    requires k <= n
    ensures NopBytes(n)[4 * k..] == NopBytes(n - k)
  {
    NopBytesAdd(k, n - k);
  }

  /** A new property with zero padding, then NOPs that fill the space. */
  function PropElems(nameOff: nat, data: seq<byte>, nops: nat): Elems {
    Prop(nameOff, data, Zeros(Pad4(|data|)), Nops(nops))
  }

  /** A new empty node, then NOPs that fill the space. */
  function ChildElems(name: seq<byte>, pad: seq<byte>, nops: nat): Elems {
    Node(name, pad, Nil, Nops(nops))
  }

  lemma PropElemsAre(nameOff: nat, data: seq<byte>, nops: nat, names: seq<byte>)
    requires nameOff < |names| && nameOff < WORD_SPACE && |data| < WORD_SPACE
    ensures var x := PropElems(nameOff, data, nops);
            && Wf(x) && NamesIn(x, |names|) && PropsFirst(x) && KidsOf(names, x) == []
            && PropsOf(names, x) == [Entry(CStr(names, nameOff), data)]
            && Enc(x) == PropToken(nameOff, data, Zeros(Pad4(|data|))) + NopBytes(nops)
  {
    NopsAre(nops, names);
    NopsEnc(nops);
  }

  lemma ChildElemsAre(name: seq<byte>, pad: seq<byte>, nops: nat, names: seq<byte>)
    requires 0 !in name && |pad| == Pad4(|name| + 1)
    ensures var x := ChildElems(name, pad, nops);
            && Wf(x) && NamesIn(x, |names|) && PropsFirst(x) && NoProps(x) && PropsOf(names, x) == []
            && KidsOf(names, x) == [Tree(name, [], [])]
            && Enc(x) == NodeHead(name, pad) + (BE32(FDT_END_NODE) + NopBytes(nops))
  {
    NopsAre(nops, names);
    NopsEnc(nops);
    assert [] + (BE32(FDT_END_NODE) + NopBytes(nops)) == BE32(FDT_END_NODE) + NopBytes(nops);
  }

  /** Overwriting the start of some bytes. */
  lemma WriteStart(s: seq<byte>, x: seq<byte>)
    requires |x| <= |s|
    ensures Write(s, 0, x) == x + s[|x|..]
  {
  }

  /** A property written over NOPs: header, then zeros, then the data. */
  function PropOver(s: seq<byte>, nameOff: nat, data: seq<byte>): seq<byte>
    requires nameOff < WORD_SPACE && |data| < WORD_SPACE && 12 + Round4(|data|) <= |s|
  {
    Write(Write(Write(s, 0, BE32(FDT_PROP) + BE32(|data|) + BE32(nameOff)), 12, Zeros(Round4(|data|))), 12, data)
  }

  lemma PropOverSeq(s: seq<byte>, head: seq<byte>, data: seq<byte>, n: nat)
    requires |head| == 12 && |data| <= n && 12 + n <= |s|
    ensures Write(Write(Write(s, 0, head), 12, Zeros(n)), 12, data) == Write(s, 0, head + data + Zeros(n - |data|))
  {
    WriteNext(s, 0, head, Zeros(n));
    assert Zeros(n) == Zeros(|data|) + Zeros(n - |data|);
    assert Write(Zeros(n), 0, data) == data + Zeros(n - |data|);
  }

  /** The bytes of a new property over `n` NOPs are those of the property followed by the NOPs that remain. */
  lemma PropOverNops(nameOff: nat, data: seq<byte>, n: nat)
    requires nameOff < WORD_SPACE && |data| < WORD_SPACE && 3 + Words(|data|) <= n
    ensures PropOver(NopBytes(n), nameOff, data)
            == PropToken(nameOff, data, Zeros(Pad4(|data|))) + NopBytes(n - 3 - Words(|data|))
  {
    var head := BE32(FDT_PROP) + BE32(|data|) + BE32(nameOff);
    PropOverSeq(NopBytes(n), head, data, Round4(|data|));
    WriteStart(NopBytes(n), head + data + Zeros(Pad4(|data|)));
    NopsDrop(n, 3 + Words(|data|));
  }

  /** A node written over NOPs: token, name and terminator, end token. */
  function ChildOver(s: seq<byte>, name: seq<byte>): seq<byte>
    requires 8 + Round4(|name| + 1) <= |s|
  {
    Write(Write(Write(s, 0, BE32(FDT_BEGIN_NODE)), 4, name + [0]), 4 + Round4(|name| + 1), BE32(FDT_END_NODE))
  }

  lemma ChildOverSeq(s: seq<byte>, a: seq<byte>, b: seq<byte>, m: nat, z: seq<byte>)
    requires |a| == 4 && |b| <= m && 4 + m + |z| <= |s|
    ensures Write(Write(Write(s, 0, a), 4, b), 4 + m, z) == a + b + s[4 + |b|..4 + m] + (z + s[4 + m + |z|..])
  {
    WriteNext(s, 0, a, b);
    WriteStart(s, a + b);
  }

  /** The name of the new node is padded with what remains of the NOP that it partly overwrites. */
  lemma ChildOverNops(name: seq<byte>, n: nat)
    requires 2 + Words(|name| + 1) <= n
    ensures var pad := NopBytes(n)[5 + |name|..4 + Round4(|name| + 1)];
            ChildOver(NopBytes(n), name)
            == NodeHead(name, pad) + (BE32(FDT_END_NODE) + NopBytes(n - 2 - Words(|name| + 1)))
  {
    ChildOverSeq(NopBytes(n), BE32(FDT_BEGIN_NODE), name + [0], Round4(|name| + 1), BE32(FDT_END_NODE));
    NopsDrop(n, 2 + Words(|name| + 1));
  }

  // The contents of the edited node.

  /** Elements added at the end of a node. */
  lemma AppendReplaces(body: Elems, x: Elems)
    requires Wf(body) && Wf(x)
    ensures Wf(Cat(body, x)) && Replaces(Enc(body), Enc(Cat(body, x)), 4 * Size(body), [], Enc(x))
  {
    CatEnc(body, x);
    EncSize(body);
    ReplacesEnd(Enc(body), Enc(x));
  }

  lemma ReplacesEnd(s: seq<byte>, x: seq<byte>)
    ensures Replaces(s, s + x, |s|, [], x)
  {
  }

  /** Elements added at the start of a node. */
  lemma PrependReplaces(body: Elems, x: Elems)
    requires Wf(body) && Wf(x)
    ensures Wf(Cat(x, body)) && Replaces(Enc(body), Enc(Cat(x, body)), 0, [], Enc(x))
  {
    CatEnc(x, body);
    ReplacesHere([], Enc(body), Enc(x));
    assert [] + Enc(body) == Enc(body);
  }

  // The strings block.

  lemma {:induction false} CStrKept(names: seq<byte>, more: seq<byte>, i: nat)
    requires Terminated(names) && i < |names|
    ensures CStr(names + more, i) == CStr(names, i)
    decreases |names| - i
  {
    if names[i] != 0 {
      CStrKept(names, more, i + 1);
    }
  }

  /** Adding to the strings block changes no property name. */
  lemma {:induction false} NamesGrow(names: seq<byte>, more: seq<byte>, e: Elems)
    requires Terminated(names) && NamesIn(e, |names|)
    ensures NamesIn(e, |names + more|)
    ensures PropsOf(names + more, e) == PropsOf(names, e) && KidsOf(names + more, e) == KidsOf(names, e)
    decreases e
  {
    match e
    case Nil =>
    case Nop(rest) => NamesGrow(names, more, rest);
    case Prop(nameOff, _, _, rest) =>
      CStrKept(names, more, nameOff);
      NamesGrow(names, more, rest);
    case Node(_, _, body, rest) =>
      NamesGrow(names, more, body);
      NamesGrow(names, more, rest);
  }

  lemma SpaceIs(name: seq<byte>)
    ensures var x := StringSpace(name); |name| < |x| && x[..|name| + 1] == name + [0] && x[|x| - 1] == 0
  {
    var n, t := Round8(|name| + 1), name + [0];
    assert StringSpace(name) == t + Zeros(n)[|t|..];
  }

  lemma NewName(names: seq<byte>, x: seq<byte>, name: seq<byte>)
    requires 0 !in name && |name| < |x| && x[..|name| + 1] == name + [0]
    ensures CStr(names + x, |names|) == name
  {
    assert (names + x)[|names|..|names| + |name| + 1] == x[..|name| + 1];
    CStrIs(names + x, |names|, name);
  }

  /** A new string leaves the tree as it was. */
  lemma StringAdded(b: Blob, c: Blob, e: Elems, name: seq<byte>, rsv: nat)
    requires Encodes(b, e, rsv) && StringsGrown(b, c, StringSpace(name), rsv) && 0 !in name
    ensures Encodes(c, e, rsv) && CStr(StringBytes(c), b.stringsLen) == name && b.stringsLen < c.stringsLen
    ensures KidsOf(StringBytes(c), e) == KidsOf(StringBytes(b), e)
  {
    NamesGrow(StringBytes(b), StringSpace(name), e);
    SpaceIs(name);
    NewName(StringBytes(b), StringSpace(name), name);
  }

  // A change in the contents of one node.

  /** A node's contents are well formed where the tree is. */
  lemma {:induction false} NamesPath(e: Elems, path: seq<nat>, stringsLen: nat)
    requires IsPath(e, path) && NamesIn(e, stringsLen) && PropsFirst(e)
    ensures NamesIn(PathNode(e, path).body, stringsLen) && PropsFirst(PathNode(e, path).body)
    decreases e
  {
    match e
    case Nop(rest) => NamesPath(rest, path, stringsLen);
    case Prop(_, _, _, rest) => NamesPath(rest, path, stringsLen);
    case Node(_, _, body, rest) =>
      if path[0] > 0 {
        NamesPath(rest, Down(path), stringsLen);
      } else if |path| > 1 {
        NamesPath(body, path[1..], stringsLen);
      }
  }

  /** `body` can take the place of the contents of the node at `path`, by replacing `was` at `i` by `x`. */
  predicate BodyEdit(e: Elems, path: seq<nat>, stringsLen: nat, body: Elems, i: nat, was: seq<byte>, x: seq<byte>) {
    && IsPath(e, path) && Wf(PathNode(e, path))
    && Wf(body) && NamesIn(body, stringsLen) && PropsFirst(body)
    && Replaces(Enc(PathNode(e, path).body), Enc(body), i, was, x)
  }

  /** The edited blob encodes the tree with the contents of the node at `path` changed. */
  lemma NodeEdited(b: Blob, c: Blob, e: Elems, path: seq<nat>, body: Elems, i: nat, was: seq<byte>, x: seq<byte>,
                   at: nat, d: nat, rsv: nat)
    requires Encodes(b, e, rsv) && BodyEdit(e, path, |StringBytes(b)|, body, i, was, x)
    requires at == BodyAt(e, path) + i && d == |was| && Spliced(b, c, at, d, x, rsv)
    ensures Encodes(c, UpdateBody(e, path, body), rsv) && IsTreePath(KidsOf(StringBytes(b), e), path)
    ensures var names := StringBytes(b);
            KidsOf(names, UpdateBody(e, path, body))
            == PutAt(KidsOf(names, e), path, Tree(PathNode(e, path).name, PropsOf(names, body), KidsOf(names, body)))
  {
    BodyReplaced(StructBytes(b), StructBytes(c), e, path, body, i, was, x, at, d);
    ShapedUpdate(e, StringBytes(b), path, body);
  }
}
