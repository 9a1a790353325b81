/** fdt_ensure_child() and fdt_set(), on the tree that the buffer encodes. */
module FdtSet {
  import opened Basics
  import opened FdtFormat
  import opened FdtWalk
  import opened FdtTree
  import opened FdtSpec
  import opened FdtRead
  import opened FdtReadLaws
  import opened FdtSplice
  import opened FdtBlob
  import opened FdtEdit
  import opened FdtUpdate

  /** `offset` stands for the node at `path`: it is where the node begins, or 0 for the root. */
  predicate Starts(e: Elems, path: seq<nat>, offset: nat)
    requires IsPath(e, path)
  {
    offset == PathOff(e, 0, path) || (offset == 0 && path == [0])
  }

  lemma EnterStarts(f: Fdt, e: Elems, path: seq<nat>, offset: nat)
    requires Represents(f, e) && IsPath(e, path) && Starts(e, path, offset)
    ensures Pos(f, offset) && PathOff(e, 0, path) in TokensOf(f)
    ensures Enter(TokensOf(f), f.len, offset) == Ok(TokensOf(f)[PathOff(e, 0, path)])
    ensures Enter(TokensOf(f), f.len, PathOff(e, 0, path)) == Ok(TokensOf(f)[PathOff(e, 0, path)])
    ensures TokensOf(f)[PathOff(e, 0, path)].next == BodyAt(e, path)
  {
    RepresentsReads(f, e, path);
    SitsPath(f, 0, e, path);
    BodyAtIs(e, 0, path);
    if offset != PathOff(e, 0, path) {
      EnterTop(TokensOf(f), f.len, Names(f), 0, e);
    }
  }

  /** A node appended to a list comes after the nodes that were there. */
  lemma {:induction false} CatPath(names: seq<byte>, a: Elems, x: Elems, off: nat)
    requires x.Node?
    ensures var k := |KidsOf(names, a)|;
            IsPath(Cat(a, x), [k]) && PathOff(Cat(a, x), off, [k]) == off + 4 * Size(a)
    decreases a
  {
    match a
    case Nil =>
    case Nop(rest) => CatPath(names, rest, x, off + 4);
    case Prop(_, data, _, rest) => CatPath(names, rest, x, PropNext(off, data));
    case Node(n, _, body, rest) =>
      CatPath(names, rest, x, NodeNext(off, n, body));
      assert Down([|KidsOf(names, rest)| + 1]) == [|KidsOf(names, rest)|];
  }

  /** The offset of a node appended to the node at `path`. */
  lemma ChildOffset(names: seq<byte>, e: Elems, path: seq<nat>, x: Elems)
    requires IsPath(e, path) && x.Node?
    ensures var n := PathNode(e, path);
            var u, k := UpdateBody(e, path, Cat(n.body, x)), |KidsOf(names, n.body)|;
            IsPath(u, path + [k]) && PathOff(u, 0, path + [k]) == BodyAt(e, path) + 4 * Size(n.body)
  {
    var n := PathNode(e, path);
    var u, k := UpdateBody(e, path, Cat(n.body, x)), |KidsOf(names, n.body)|;
    UpdateKeepsPath(e, 0, path, Cat(n.body, x));
    CatPath(names, n.body, x, BodyAt(e, path));
    BodyAtIs(e, 0, path);
    PathAppend(u, 0, path, k);
  }

  /** The tree with an empty child named `name` added at the end of the node at `path`. */
  function AddChild(kids: seq<Tree>, path: seq<nat>, name: seq<byte>): seq<Tree>
    requires IsTreePath(kids, path)
  {
    var t := TreeAt(kids, path);
    PutAt(kids, path, Tree(t.name, t.props, t.kids + [Tree(name, [], [])]))
  }

  /** Space for a node, of which NOPs remain after it. */
  lemma ChildFits(name: seq<byte>)
    ensures 2 + Words(|name| + 1) <= Pairs(9 + |name|)
  {
  }

  /** The bytes written for a new node are those of an empty node followed by NOPs. */
  lemma NewChild(name: seq<byte>, names: seq<byte>) returns (x: Elems)
    requires 0 !in name
    ensures 2 + Words(|name| + 1) <= Pairs(9 + |name|)
    ensures x.Node? && Wf(x) && Enc(x) == ChildOver(NopBytes(Pairs(9 + |name|)), name)
    ensures NamesIn(x, |names|) && PropsFirst(x) && NoProps(x)
    ensures PropsOf(names, x) == [] && KidsOf(names, x) == [Tree(name, [], [])]
  {
    var n := Pairs(9 + |name|);
    ChildFits(name);
    var pad := NopBytes(n)[5 + |name|..4 + Round4(|name| + 1)];
    x := ChildElems(name, pad, n - 2 - Words(|name| + 1));
    ChildOverNops(name, n);
    ChildElemsAre(name, pad, n - 2 - Words(|name| + 1), names);
  }

  /** The contents of the node at `path` with elements added at the end. */
  lemma AppendBody(e: Elems, path: seq<nat>, body: Elems, x: Elems, stringsLen: nat, i: nat)
    requires Wf(e) && NamesIn(e, stringsLen) && PropsFirst(e) && IsPath(e, path) && body == PathNode(e, path).body
    requires Wf(x) && NamesIn(x, stringsLen) && PropsFirst(x) && NoProps(x)
    requires i == 4 * Size(body)
    ensures BodyEdit(e, path, stringsLen, Cat(body, x), i, [], Enc(x))
  {
    WfPath(e, path);
    NamesPath(e, path, stringsLen);
    CatKeeps(body, x, stringsLen);
    AppendReplaces(body, x);
  }

  /** The blob after a node is written at the end of the node at `path`. */
  lemma ChildAppended(b: Blob, c: Blob, e: Elems, path: seq<nat>, x: Elems, u: Elems, at: nat, rsv: nat)
    requires Encodes(b, e, rsv) && IsPath(e, path)
    requires Wf(x) && NamesIn(x, |StringBytes(b)|) && PropsFirst(x) && NoProps(x)
    requires at == BodyAt(e, path) + 4 * Size(PathNode(e, path).body) && Spliced(b, c, at, 0, Enc(x), rsv)
    requires u == UpdateBody(e, path, Cat(PathNode(e, path).body, x))
    ensures Encodes(c, u, rsv) && IsTreePath(KidsOf(StringBytes(b), e), path)
    ensures var kids, names := KidsOf(StringBytes(b), e), StringBytes(b);
            var t := TreeAt(kids, path);
            KidsOf(names, u) == PutAt(kids, path, Tree(t.name, t.props + PropsOf(names, x), t.kids + KidsOf(names, x)))
  {
    var names, body := StringBytes(b), PathNode(e, path).body;
    var i := 4 * Size(body);
    AppendBody(e, path, body, x, |names|, i);
    CatTrees(names, body, x);
    NodeEdited(b, c, e, path, Cat(body, x), i, [], Enc(x), at, 0, rsv);
    PathTree(names, e, path);
  }

  /** The blob after an empty node is written over NOPs at the end of the node at `path`. */
  lemma ChildAdded(b: Blob, c: Blob, e: Elems, path: seq<nat>, name: seq<byte>, at: nat, rsv: nat) returns (u: Elems)
    requires Encodes(b, e, rsv) && IsPath(e, path) && 0 !in name && 2 + Words(|name| + 1) <= Pairs(9 + |name|)
    requires at == BodyAt(e, path) + 4 * Size(PathNode(e, path).body)
    requires Spliced(b, c, at, 0, ChildOver(NopBytes(Pairs(9 + |name|)), name), rsv)
    ensures Encodes(c, u, rsv) && IsTreePath(KidsOf(StringBytes(b), e), path)
    ensures KidsOf(StringBytes(b), u) == AddChild(KidsOf(StringBytes(b), e), path, name)
    ensures var k := |TreeAt(KidsOf(StringBytes(b), e), path).kids|;
            IsPath(u, path + [k]) && PathOff(u, 0, path + [k]) == at
  {
    var names := StringBytes(b);
    var x := NewChild(name, names);
    u := UpdateBody(e, path, Cat(PathNode(e, path).body, x));
    ChildAppended(b, c, e, path, x, u, at, rsv);
    ChildOffset(names, e, path, x);
    PathTree(names, e, path);
    var t := TreeAt(KidsOf(names, e), path);
    assert t.props + [] == t.props;
  }

  /** The contents of a node lie within the structure block. */
  lemma BodyWithin(b: Blob, e: Elems, path: seq<nat>, rsv: nat)
    requires Encodes(b, e, rsv) && IsPath(e, path)
    ensures 0 < BodyAt(e, path) && BodyAt(e, path) + 4 * Size(PathNode(e, path).body) <= b.structureLen
  {
    BodyInside(e, path);
    LeadsHolds(View(b), e, b.structureLen);
  }

  /** Walks that enter the same node give the same result. */
  lemma SameEnter(t: Tokens, len: nat, o: nat, p: nat)
    requires Advances(t, len) && Enter(t, len, o) == Enter(t, len, p)
    ensures End(t, len, o) == End(t, len, p)
  {
  }

  /** fdt_end() from a node's starting offset. */
  lemma EndFromStart(f: Fdt, e: Elems, path: seq<nat>, offset: nat, at: nat)
    requires Represents(f, e) && IsPath(e, path) && Starts(e, path, offset)
    requires at == BodyAt(e, path) + 4 * Size(PathNode(e, path).body)
    ensures End(TokensOf(f), f.len, offset) == Ok(at)
  {
    var off, n := PathOff(e, 0, path), PathNode(e, path);
    EnterStarts(f, e, path, offset);
    SameEnter(TokensOf(f), f.len, offset, off);
    BodyAtIs(e, 0, path);
    EndOf(f, e, path, off, n, at);
  }

  lemma EndOf(f: Fdt, e: Elems, path: seq<nat>, off: nat, n: Elems, at: nat)
    requires Represents(f, e) && IsPath(e, path) && off == PathOff(e, 0, path) && n == PathNode(e, path)
    requires at == NodeEnd(off, n.name, n.body)
    ensures End(TokensOf(f), f.len, off) == Ok(at)
  {
    PathTree(Names(f), e, path);
    EndCorrect(f, e, path);
  }

  /** fdt_end() on the encoded tree. */
  lemma EndPosition(b: Blob, e: Elems, path: seq<nat>, offset: nat, at: nat, rsv: nat)
    requires Encodes(b, e, rsv) && IsPath(e, path) && Starts(e, path, offset)
    requires at == BodyAt(e, path) + 4 * Size(PathNode(e, path).body)
    ensures End(TokensOf(View(b)), b.len, offset) == Ok(at)
  {
    EncodesRepresents(b, e, rsv);
    EndFromStart(View(b), e, path, offset, at);
  }

  lemma {:induction false} BodyInside(e: Elems, path: seq<nat>)
    requires IsPath(e, path)
    ensures 0 < BodyAt(e, path) && BodyAt(e, path) + 4 * Size(PathNode(e, path).body) + 4 <= 4 * Size(e)
    decreases e
  {
    match e
    case Nop(rest) => BodyInside(rest, path);
    case Prop(_, _, _, rest) => BodyInside(rest, path);
    case Node(_, _, body, rest) =>
      if path[0] > 0 {
        BodyInside(rest, Down(path));
      } else if |path| > 1 {
        BodyInside(body, path[1..]);
      }
  }

  /** fdt_child() from a node's starting offset. */
  lemma ChildFromStart(f: Fdt, e: Elems, path: seq<nat>, offset: nat, name: seq<byte>)
    requires Represents(f, e) && IsPath(e, path) && Starts(e, path, offset)
    ensures Pos(f, offset) && IsTreePath(KidsOf(Names(f), e), path)
    ensures match FirstKid(TreeAt(KidsOf(Names(f), e), path).kids, name)
            case None => Child(TokensOf(f), f.len, offset, name) == Err(ENOENT)
            case Some(k) =>
              && IsPath(e, path + [k])
              && Child(TokensOf(f), f.len, offset, name) == Ok(PathOff(e, 0, path + [k]))
  {
    EnterStarts(f, e, path, offset);
    PathTree(Names(f), e, path);
    ChildCorrect(f, e, path, name);
  }

  /** fdt_child() on the encoded tree. */
  lemma ChildPosition(b: Blob, e: Elems, path: seq<nat>, offset: nat, name: seq<byte>, rsv: nat)
    requires Encodes(b, e, rsv) && IsPath(e, path) && Starts(e, path, offset)
    ensures Pos(View(b), offset) && IsTreePath(KidsOf(StringBytes(b), e), path)
    ensures match FirstKid(TreeAt(KidsOf(StringBytes(b), e), path).kids, name)
            case None => Child(TokensOf(View(b)), b.len, offset, name) == Err(ENOENT)
            case Some(k) =>
              && IsPath(e, path + [k])
              && Child(TokensOf(View(b)), b.len, offset, name) == Ok(PathOff(e, 0, path + [k]))
  {
    EncodesRepresents(b, e, rsv);
    ChildFromStart(View(b), e, path, offset, name);
  }

  /** Write within what has been spliced in. */
  method WriteIn(ed: Editor, o: nat, i: nat, w: seq<byte>, ghost b: Blob, ghost d: nat, ghost x: seq<byte>, ghost rsv: nat)
    requires Spliced(b, ed.State(), o, d, x, rsv) && i + |w| <= |x|
    modifies ed`raw
    ensures Spliced(b, ed.State(), o, d, Write(x, i, w), rsv)
  {
    ghost var c := ed.State();
    ed.WriteStruct(o + i, w, rsv);
    SplicedWritten(b, c, ed.State(), o, d, x, o + i, i, w, rsv);
  }

  /** The "construct node" part of fdt_ensure_child(). */
  method WriteChild(ed: Editor, at: nat, name: seq<byte>, ghost b: Blob, ghost rsv: nat)
    requires 2 + Words(|name| + 1) <= Pairs(9 + |name|)
    requires Spliced(b, ed.State(), at, 0, NopBytes(Pairs(9 + |name|)), rsv)
    modifies ed`raw
    ensures Spliced(b, ed.State(), at, 0, ChildOver(NopBytes(Pairs(9 + |name|)), name), rsv)
  {
    ghost var x := NopBytes(Pairs(9 + |name|));
    WriteIn(ed, at, 0, BE32(FDT_BEGIN_NODE), b, 0, x, rsv);
    x := Write(x, 0, BE32(FDT_BEGIN_NODE));
    WriteIn(ed, at, 4, name + [0], b, 0, x, rsv);
    x := Write(x, 4, name + [0]);
    WriteIn(ed, at, 4 + Round4(|name| + 1), BE32(FDT_END_NODE), b, 0, x, rsv);
  }

  /**
    fdt_ensure_child(): an existing child is found and nothing changes; otherwise an
    empty child is added last, or there is no room and nothing changes.
   */
  method EnsureChild(ed: Editor, offset: nat, name: seq<byte>, ghost e: Elems, ghost path: seq<nat>, ghost rsv: nat)
    returns (r: Result<nat>, ghost u: Elems)
    requires Encodes(ed.State(), e, rsv) && IsPath(e, path) && Starts(e, path, offset) && 0 !in name
    modifies ed
    ensures IsTreePath(old(KidsOf(StringBytes(ed.State()), e)), path)
    ensures r.Err? ==> ed.State() == old(ed.State()) && r.error == if ed.canRealloc then ENOMEM else ENOTSUP
    ensures r.Ok? ==> Edited(old(ed.State()), ed.State(), rsv)
    ensures r.Ok? ==> Encodes(ed.State(), u, rsv) && StringBytes(ed.State()) == old(StringBytes(ed.State()))
    ensures var kids := old(KidsOf(StringBytes(ed.State()), e));
            match FirstKid(TreeAt(kids, path).kids, name)
            case Some(k) =>
              ed.State() == old(ed.State()) && u == e && IsPath(e, path + [k]) && r == Ok(PathOff(e, 0, path + [k]))
            case None =>
              var k := |TreeAt(kids, path).kids|;
              && RoomExact(r.Err?, ed.canRealloc, old(ed.len - ed.used), Round8(9 + |name|))
              && (r.Ok? ==>
                    && KidsOf(StringBytes(ed.State()), u) == AddChild(kids, path, name)
                    && IsPath(u, path + [k]) && r.value == PathOff(u, 0, path + [k]))
  {
    u := e;
    ChildPosition(ed.State(), e, path, offset, name, rsv);
    r := FdtChild(View(ed.State()), offset, name);
    if r.Ok? {
      return;
    }
    ghost var end := BodyAt(e, path) + 4 * Size(PathNode(e, path).body);
    EndPosition(ed.State(), e, path, offset, end, rsv);
    BodyWithin(ed.State(), e, path, rsv);
    r := FdtEnd(View(ed.State()), offset);
    if r.Err? {
      assert false;
    }
    var at := r.value;
    var done := ed.InsertNop(at, 4 + (|name| + 1) + 4, rsv);
    if done.Err? {
      r := Err(done.error);
      return;
    }
    ChildFits(name);
    WriteChild(ed, at, name, old(ed.State()), rsv);
    u := ChildAdded(old(ed.State()), ed.State(), e, path, name, at, rsv);
  }
}
