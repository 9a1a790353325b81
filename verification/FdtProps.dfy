/** fdt_set(): creating, replacing and deleting properties of the encoded tree. */
module FdtProps {
  import opened Basics
  import opened FdtFormat
  import opened FdtWalk
  import opened FdtTree
  import opened FdtSpec
  import opened FdtRead
  import opened FdtReadLaws
  import opened FdtSplice
  import opened FdtBlob
  import opened FdtEdit
  import opened FdtUpdate
  import opened FdtSet

  /** The node with a property set, or deleted: the first match is replaced in place, a new property comes first. */
  function SetProp(t: Tree, name: seq<byte>, data: Option<seq<byte>>): Tree {
    var props :=
      match data
      case None => ReplaceEntry(t.props, name, [])
      case Some(d) =>
        match FirstEntry(t.props, name)
        case None => [Entry(name, d)] + t.props
        case Some(i) => ReplaceEntry(t.props, name, [Entry(t.props[i].name, d)]);
    Tree(t.name, props, t.kids)
  }

  /** The property that a lookup finds. */
  function FindEntry(props: seq<Entry>, name: seq<byte>): Option<Entry> {
    if props == [] then None
    else if Match(props[0].name, name) then Some(props[0])
    else FindEntry(props[1..], name)
  }

  lemma {:induction false} FindIsFirst(props: seq<Entry>, name: seq<byte>)
    ensures match FirstEntry(props, name)
            case None => FindEntry(props, name) == None
            case Some(i) => FindEntry(props, name) == Some(props[i])
  {
    if props != [] && !Match(props[0].name, name) {
      FindIsFirst(props[1..], name);
    }
  }

  /** A property that was set is the one found, with the data that was set. */
  lemma SetThenFind(t: Tree, name: seq<byte>, d: seq<byte>)
    ensures var found := FindEntry(SetProp(t, name, Some(d)).props, name); found.Some? && found.value.data == d
  {
    match FirstEntry(t.props, name)
    case None =>
    case Some(i) => FindReplaced(t.props, name, Entry(t.props[i].name, d));
  }

  lemma {:induction false} FindReplaced(props: seq<Entry>, name: seq<byte>, x: Entry)
    requires FirstEntry(props, name).Some? && Match(x.name, name)
    ensures FindEntry(ReplaceEntry(props, name, [x]), name) == Some(x)
  {
    if !Match(props[0].name, name) {
      FindReplaced(props[1..], name, x);
      assert ReplaceEntry(props, name, [x])[1..] == ReplaceEntry(props[1..], name, [x]);
    }
  }

  /** A deleted property is no longer found exactly when it was the only match. */
  lemma {:induction false} DeleteThenFind(t: Tree, name: seq<byte>)
    ensures FindEntry(SetProp(t, name, None).props, name).None? <==>
            forall i, j | 0 <= i < j < |t.props| && Match(t.props[i].name, name) :: !Match(t.props[j].name, name)
    decreases |t.props|
  {
    var props := t.props;
    if props != [] {
      var rest := props[1..];
      assert forall i | 0 < i < |props| :: props[i] == rest[i - 1];
      if Match(props[0].name, name) {
        assert ReplaceEntry(props, name, []) == rest;
        FindIsFirst(rest, name);
        if FirstEntry(rest, name).Some? {
          assert Match(props[0].name, name) && Match(props[FirstEntry(rest, name).value + 1].name, name);
        }
      } else {
        DeleteThenFind(t.(props := rest), name);
        assert ReplaceEntry(props, name, [])[1..] == ReplaceEntry(rest, name, []);
      }
    }
  }

  /** Setting or deleting one property changes no other: a name that matches neither the new nor the replaced one finds what it did. */
  lemma SetThenFindOther(t: Tree, name: seq<byte>, data: Option<seq<byte>>, other: seq<byte>)
    requires data.Some? && FirstEntry(t.props, name).None? ==> !Match(name, other)
    requires forall p | p in t.props && Match(p.name, name) :: !Match(p.name, other)
    ensures FindEntry(SetProp(t, name, data).props, other) == FindEntry(t.props, other)
  {
    match data
    case None => FindOther(t.props, name, [], other);
    case Some(d) =>
      match FirstEntry(t.props, name) {
        case None =>
          var after := [Entry(name, d)] + t.props;
          assert after[1..] == t.props;
        case Some(i) =>
          assert t.props[i] in t.props;
          FindOther(t.props, name, [Entry(t.props[i].name, d)], other);
      }
  }

  lemma {:induction false} FindOther(props: seq<Entry>, name: seq<byte>, xs: seq<Entry>, other: seq<byte>)
    requires |xs| <= 1 && (|xs| == 1 ==> !Match(xs[0].name, other))
    requires forall p | p in props && Match(p.name, name) :: !Match(p.name, other)
    ensures FindEntry(ReplaceEntry(props, name, xs), other) == FindEntry(props, other)
  {
    if props != [] {
      var rest, after := props[1..], ReplaceEntry(props, name, xs);
      assert props[0] in props;
      if Match(props[0].name, name) {
        assert after[|xs|..] == rest;
      } else {
        FindOther(rest, name, xs, other);
        assert after[1..] == ReplaceEntry(rest, name, xs);
      }
    }
  }

  // What the editor finds.

  /** The name field of the property at `o`. */
  function NameField(f: Fdt, o: nat): nat {
    Word(f.raw, f.structure + o + 8)
  }

  /** What fdt_set() uses of a property token. */
  lemma TokenPlace(f: Fdt, o: nat, p: Elems, next: nat)
    requires Sits(f, o, p) && p.Prop? && next == PropNext(o, p.data)
    ensures o in TokensOf(f) && TokensOf(f)[o].offset == o && TokensOf(f)[o].len == |p.data|
    ensures NameField(f, o) == p.nameOff
  {
    SitsProp(f, o, p, next);
    PropFields(f, o, p.nameOff, p.data, p.pad);
    PropertyToken(f, o, p.nameOff, p.data, p.pad, next);
  }

  lemma PropertyPlace(f: Fdt, off: nat, n: Elems, name: seq<byte>, inner: nat, p: Elems, o: nat)
    requires Sits(f, off, n) && n.Node? && inner == NodeInner(off, n.name)
    requires FirstPropElem(Names(f), n.body, name) == Some(p) && o == inner + PropAt(Names(f), n.body, name)
    ensures Sits(f, o, p) && o in TokensOf(f) && Property(TokensOf(f), f.len, off, name) == Ok(TokensOf(f)[o])
    ensures TokensOf(f)[o].offset == o && TokensOf(f)[o].len == |p.data| && NameField(f, o) == p.nameOff
  {
    SitsReads(f, off, n);
    SitsNode(f, off, n, inner, NodeEnd(off, n.name, n.body), NodeNext(off, n.name, n.body));
    PropertyAt(TokensOf(f), f.len, Names(f), off, n, name);
    PropAtIs(Names(f), n.body, inner, name, o);
    FirstPropSits(f, n.body, inner, name);
    TokenPlace(f, o, p, PropNext(o, p.data));
  }

  lemma SameProperty(t: Tokens, len: nat, o: nat, p: nat, name: seq<byte>)
    requires Advances(t, len) && Enter(t, len, o) == Enter(t, len, p)
    ensures Property(t, len, o, name) == Property(t, len, p, name)
  {
  }

  /** fdt_property() on the encoded tree: where the property lies, and what its token says. */
  lemma PropertyPosition(f: Fdt, e: Elems, path: seq<nat>, offset: nat, name: seq<byte>, p: Elems, o: nat)
    requires Represents(f, e) && IsPath(e, path) && Starts(e, path, offset)
    requires FirstPropElem(Names(f), PathNode(e, path).body, name) == Some(p)
    requires o == BodyAt(e, path) + PropAt(Names(f), PathNode(e, path).body, name)
    ensures o in TokensOf(f) && Property(TokensOf(f), f.len, offset, name) == Ok(TokensOf(f)[o])
    ensures TokensOf(f)[o].offset == o && TokensOf(f)[o].len == |p.data| && NameField(f, o) == p.nameOff
  {
    var off := PathOff(e, 0, path);
    EnterStarts(f, e, path, offset);
    SameProperty(TokensOf(f), f.len, offset, off, name);
    BodyAtIs(e, 0, path);
    SitsPath(f, 0, e, path);
    PropertyPlace(f, off, PathNode(e, path), name, BodyAt(e, path), p, o);
  }

  /** fdt_property() finds nothing exactly when the node has no such property. */
  lemma PropertyMissing(f: Fdt, e: Elems, path: seq<nat>, offset: nat, name: seq<byte>)
    requires Represents(f, e) && IsPath(e, path) && Starts(e, path, offset)
    ensures Pos(f, offset) && IsTreePath(KidsOf(Names(f), e), path)
    ensures var body, props := PathNode(e, path).body, TreeAt(KidsOf(Names(f), e), path).props;
            && props == PropsOf(Names(f), body) && PropsFirst(body)
            && (FirstEntry(props, name).Some? <==> FirstPropElem(Names(f), body, name).Some?)
            && (FirstEntry(props, name).Some? <==> Property(TokensOf(f), f.len, offset, name).Ok?)
  {
    EnterStarts(f, e, path, offset);
    SameProperty(TokensOf(f), f.len, offset, PathOff(e, 0, path), name);
    PathTree(Names(f), e, path);
    PropertyCorrect(f, e, path, name);
    NamesPath(e, path, f.stringsLen);
    FirstPropEntry(Names(f), PathNode(e, path).body, 0, name);
  }

  // What the edits do.

  /** Elements that are properties and NOPs only. */
  predicate OnlyProps(x: Elems, stringsLen: nat) {
    Wf(x) && NamesIn(x, stringsLen) && PropsFirst(x) && !HasNode(x)
  }

  lemma {:induction false} NoKids(names: seq<byte>, x: Elems)
    requires !HasNode(x)
    ensures KidsOf(names, x) == []
    decreases x
  {
    match x
    case Nil =>
    case Nop(rest) => NoKids(names, rest);
    case Prop(_, _, _, rest) => NoKids(names, rest);
  }

  lemma ReplaceBody(e: Elems, path: seq<nat>, body: Elems, names: seq<byte>, name: seq<byte>, x: Elems, p: Elems, i: nat)
    returns (was: seq<byte>)
    requires Wf(e) && NamesIn(e, |names|) && PropsFirst(e) && IsPath(e, path) && body == PathNode(e, path).body
    requires OnlyProps(x, |names|) && FirstPropElem(names, body, name) == Some(p) && i == PropAt(names, body, name)
    ensures |was| == PropSize(p.data) && BodyEdit(e, path, |names|, ReplaceProp(names, body, name, x), i, was, Enc(x))
  {
    WfPath(e, path);
    NamesPath(e, path, |names|);
    NoKids([], x);
    ReplacePropKeeps(names, body, name, x, |names|);
    ReplacePropSplices(names, body, name, x);
    was := PropBytes(p);
    PropAligned(p.nameOff, p.data, p.pad);
  }

  /** The blob after a property is replaced by other elements. */
  lemma PropReplaced(b: Blob, c: Blob, e: Elems, path: seq<nat>, name: seq<byte>, x: Elems, p: Elems, o: nat, u: Elems, rsv: nat)
    requires Encodes(b, e, rsv) && IsPath(e, path) && OnlyProps(x, |StringBytes(b)|)
    requires FirstPropElem(StringBytes(b), PathNode(e, path).body, name) == Some(p)
    requires o == BodyAt(e, path) + PropAt(StringBytes(b), PathNode(e, path).body, name)
    requires Spliced(b, c, o, PropSize(p.data), Enc(x), rsv)
    requires u == UpdateBody(e, path, ReplaceProp(StringBytes(b), PathNode(e, path).body, name, x))
    ensures Encodes(c, u, rsv) && IsTreePath(KidsOf(StringBytes(b), e), path)
    ensures var kids, names := KidsOf(StringBytes(b), e), StringBytes(b);
            var t := TreeAt(kids, path);
            KidsOf(names, u) == PutAt(kids, path, Tree(t.name, ReplaceEntry(t.props, name, PropsOf(names, x)), t.kids))
  {
    var names, body := StringBytes(b), PathNode(e, path).body;
    var i := PropAt(names, body, name);
    var was := ReplaceBody(e, path, body, names, name, x, p, i);
    NodeEdited(b, c, e, path, ReplaceProp(names, body, name, x), i, was, Enc(x), o, PropSize(p.data), rsv);
    ReplaceBodyTrees(e, path, body, names, name, x);
    PathTree(names, e, path);
  }

  lemma ReplaceBodyTrees(e: Elems, path: seq<nat>, body: Elems, names: seq<byte>, name: seq<byte>, x: Elems)
    requires NamesIn(e, |names|) && PropsFirst(e) && IsPath(e, path) && body == PathNode(e, path).body && !HasNode(x)
    ensures KidsOf(names, ReplaceProp(names, body, name, x)) == KidsOf(names, body)
    ensures PropsOf(names, ReplaceProp(names, body, name, x)) == ReplaceEntry(PropsOf(names, body), name, PropsOf(names, x))
  {
    NoKids(names, x);
    NamesPath(e, path, |names|);
    ReplacePropTrees(names, body, name, x);
  }

  lemma PrependBody(e: Elems, path: seq<nat>, body: Elems, x: Elems, stringsLen: nat)
    requires Wf(e) && NamesIn(e, stringsLen) && PropsFirst(e) && IsPath(e, path) && body == PathNode(e, path).body
    requires OnlyProps(x, stringsLen)
    ensures BodyEdit(e, path, stringsLen, Cat(x, body), 0, [], Enc(x))
  {
    WfPath(e, path);
    NamesPath(e, path, stringsLen);
    NoKids([], x);
    CatKeeps(x, body, stringsLen);
    PrependReplaces(body, x);
  }

  /** The blob after elements are written at the start of the node at `path`. */
  lemma PropPrepended(b: Blob, c: Blob, e: Elems, path: seq<nat>, x: Elems, u: Elems, rsv: nat)
    requires Encodes(b, e, rsv) && IsPath(e, path) && OnlyProps(x, |StringBytes(b)|)
    requires Spliced(b, c, BodyAt(e, path), 0, Enc(x), rsv) && u == UpdateBody(e, path, Cat(x, PathNode(e, path).body))
    ensures Encodes(c, u, rsv) && IsTreePath(KidsOf(StringBytes(b), e), path)
    ensures var kids, names := KidsOf(StringBytes(b), e), StringBytes(b);
            var t := TreeAt(kids, path);
            KidsOf(names, u) == PutAt(kids, path, Tree(t.name, PropsOf(names, x) + t.props, t.kids))
  {
    var names, body := StringBytes(b), PathNode(e, path).body;
    PrependBody(e, path, body, x, |names|);
    NodeEdited(b, c, e, path, Cat(x, body), 0, [], Enc(x), BodyAt(e, path), 0, rsv);
    NoKids(names, x);
    CatTrees(names, x, body);
    assert [] + KidsOf(names, body) == KidsOf(names, body);
    PathTree(names, e, path);
  }

  /** The "construct property" part of fdt_set(). */
  method WriteProp(ed: Editor, at: nat, nameOff: nat, data: seq<byte>, ghost b: Blob, ghost d: nat, ghost n: nat, ghost rsv: nat)
    requires nameOff < WORD_SPACE && |data| < WORD_SPACE && 3 + Words(|data|) <= n
    requires Spliced(b, ed.State(), at, d, NopBytes(n), rsv)
    modifies ed`raw
    ensures Spliced(b, ed.State(), at, d, PropOver(NopBytes(n), nameOff, data), rsv)
  {
    ghost var x := NopBytes(n);
    var head := BE32(FDT_PROP) + BE32(|data|) + BE32(nameOff);
    WriteIn(ed, at, 0, head, b, d, x, rsv);
    x := Write(x, 0, head);
    WriteIn(ed, at, 12, Zeros(Round4(|data|)), b, d, x, rsv);
    x := Write(x, 12, Zeros(Round4(|data|)));
    WriteIn(ed, at, 12, data, b, d, x, rsv);
  }

  /** The blob encodes the tree with one property set or deleted, and the node is where it was. */
  ghost predicate SetDone(b: Blob, c: Blob, e: Elems, u: Elems, path: seq<nat>, name: seq<byte>, data: Option<seq<byte>>, rsv: nat) {
    && Encodes(b, e, rsv) && Encodes(c, u, rsv) && Edited(b, c, rsv)
    && IsPath(e, path) && IsPath(u, path) && PathOff(u, 0, path) == PathOff(e, 0, path)
    && var kids := KidsOf(StringBytes(b), e);
       IsTreePath(kids, path) && KidsOf(StringBytes(c), u) == PutAt(kids, path, SetProp(TreeAt(kids, path), name, data))
  }

  /** A property of a node: the element, and where it lies. */
  ghost predicate HasProp(b: Blob, e: Elems, path: seq<nat>, name: seq<byte>, p: Elems, o: nat, rsv: nat) {
    && Encodes(b, e, rsv) && IsPath(e, path)
    && FirstPropElem(StringBytes(b), PathNode(e, path).body, name) == Some(p)
    && o == BodyAt(e, path) + PropAt(StringBytes(b), PathNode(e, path).body, name)
  }

  lemma {:induction false} PropWf(names: seq<byte>, e: Elems, name: seq<byte>)
    requires FirstPropElem(names, e, name).Some? && Wf(e) && NamesIn(e, |names|)
    ensures var p := FirstPropElem(names, e, name).value; Wf(p) && NamesIn(p, |names|)
    ensures PropAt(names, e, name) + PropSize(FirstPropElem(names, e, name).value.data) <= 4 * Size(e)
    decreases e
  {
    match e
    case Nop(rest) => PropWf(names, rest, name);
    case Prop(nameOff, _, _, rest) =>
      if !Match(CStr(names, nameOff), name) {
        PropWf(names, rest, name);
      }
  }

  /** The property lies within the structure block. */
  lemma PropWithin(b: Blob, e: Elems, path: seq<nat>, name: seq<byte>, p: Elems, o: nat, rsv: nat)
    requires HasProp(b, e, path, name, p, o, rsv)
    ensures 0 < o && o + PropSize(p.data) <= b.structureLen && p.nameOff < |StringBytes(b)| && p.nameOff < WORD_SPACE
  {
    BodyWithin(b, e, path, rsv);
    WfPath(e, path);
    NamesPath(e, path, |StringBytes(b)|);
    PropWf(StringBytes(b), PathNode(e, path).body, name);
  }

  /** The name of the property found. */
  lemma PropNamed(b: Blob, e: Elems, path: seq<nat>, name: seq<byte>, p: Elems, o: nat, rsv: nat)
    requires HasProp(b, e, path, name, p, o, rsv)
    ensures IsTreePath(KidsOf(StringBytes(b), e), path)
    ensures var props := TreeAt(KidsOf(StringBytes(b), e), path).props;
            && FirstEntry(props, name).Some?
            && props[FirstEntry(props, name).value] == Entry(CStr(StringBytes(b), p.nameOff), p.data)
  {
    var names := StringBytes(b);
    PathTree(names, e, path);
    NamesPath(e, path, |names|);
    FirstPropEntry(names, PathNode(e, path).body, 0, name);
  }

  lemma {:induction false} NopsNoNode(n: nat)
    ensures !HasNode(Nops(n))
  {
    if n > 0 {
      NopsNoNode(n - 1);
    }
  }

  /** Erasing a property deletes it. */
  lemma PropErased(b: Blob, c: Blob, e: Elems, path: seq<nat>, name: seq<byte>, p: Elems, o: nat, n: nat, rsv: nat)
    returns (u: Elems)
    requires HasProp(b, e, path, name, p, o, rsv) && Spliced(b, c, o, PropSize(p.data), NopBytes(n), rsv)
    ensures SetDone(b, c, e, u, path, name, None, rsv)
  {
    var names, body := StringBytes(b), PathNode(e, path).body;
    NopsAre(n, names);
    NopsNoNode(n);
    NopsEnc(n);
    u := UpdateBody(e, path, ReplaceProp(names, body, name, Nops(n)));
    PropReplaced(b, c, e, path, name, Nops(n), p, o, u, rsv);
    UpdateKeepsPath(e, 0, path, ReplaceProp(names, body, name, Nops(n)));
  }

  /** The elements that a property written over NOPs amounts to. */
  lemma NewProp(nameOff: nat, data: seq<byte>, n: nat, names: seq<byte>) returns (x: Elems)
    requires nameOff < |names| && nameOff < WORD_SPACE && |data| < WORD_SPACE && 3 + Words(|data|) <= n
    ensures OnlyProps(x, |names|) && Enc(x) == PropOver(NopBytes(n), nameOff, data)
    ensures PropsOf(names, x) == [Entry(CStr(names, nameOff), data)]
  {
    var k := n - 3 - Words(|data|);
    x := PropElems(nameOff, data, k);
    PropElemsAre(nameOff, data, k, names);
    PropOverNops(nameOff, data, n);
    NopsNoNode(k);
  }

  /** Writing a property in place of another sets it. */
  lemma PropSet(b: Blob, c: Blob, e: Elems, path: seq<nat>, name: seq<byte>, p: Elems, o: nat, n: nat, data: seq<byte>, rsv: nat)
    returns (u: Elems)
    requires HasProp(b, e, path, name, p, o, rsv) && p.nameOff < |StringBytes(b)| && p.nameOff < WORD_SPACE
    requires |data| < WORD_SPACE && 3 + Words(|data|) <= n
    requires Spliced(b, c, o, PropSize(p.data), PropOver(NopBytes(n), p.nameOff, data), rsv)
    ensures SetDone(b, c, e, u, path, name, Some(data), rsv)
  {
    var names, body := StringBytes(b), PathNode(e, path).body;
    var x := NewProp(p.nameOff, data, n, names);
    u := UpdateBody(e, path, ReplaceProp(names, body, name, x));
    PropReplaced(b, c, e, path, name, x, p, o, u, rsv);
    PropNamed(b, e, path, name, p, o, rsv);
    UpdateKeepsPath(e, 0, path, ReplaceProp(names, body, name, x));
  }

  /** Writing a property at the start of a node that has none of its name sets it. */
  lemma PropCreated(b: Blob, c: Blob, e: Elems, path: seq<nat>, name: seq<byte>, nameOff: nat, n: nat, data: seq<byte>, rsv: nat)
    returns (u: Elems)
    requires Encodes(b, e, rsv) && IsPath(e, path) && IsTreePath(KidsOf(StringBytes(b), e), path)
    requires FirstEntry(TreeAt(KidsOf(StringBytes(b), e), path).props, name).None?
    requires nameOff < |StringBytes(b)| && nameOff < WORD_SPACE && CStr(StringBytes(b), nameOff) == name
    requires |data| < WORD_SPACE && 3 + Words(|data|) <= n
    requires Spliced(b, c, BodyAt(e, path), 0, PropOver(NopBytes(n), nameOff, data), rsv)
    ensures SetDone(b, c, e, u, path, name, Some(data), rsv)
  {
    var names, body := StringBytes(b), PathNode(e, path).body;
    var x := NewProp(nameOff, data, n, names);
    u := UpdateBody(e, path, Cat(x, body));
    PropPrepended(b, c, e, path, x, u, rsv);
    UpdateKeepsPath(e, 0, path, Cat(x, body));
  }

  /** Nothing to delete: the tree is as it was. */
  lemma NothingDeleted(b: Blob, c: Blob, e: Elems, path: seq<nat>, name: seq<byte>, rsv: nat)
    requires Encodes(b, e, rsv) && Encodes(c, e, rsv) && Edited(b, c, rsv) && IsPath(e, path)
    requires KidsOf(StringBytes(c), e) == KidsOf(StringBytes(b), e)
    requires IsTreePath(KidsOf(StringBytes(b), e), path)
    requires FirstEntry(TreeAt(KidsOf(StringBytes(b), e), path).props, name).None?
    ensures SetDone(b, c, e, e, path, name, None, rsv)
  {
    var kids := KidsOf(StringBytes(b), e);
    ReplaceEntryIs(TreeAt(kids, path).props, name, []);
    PutAtSame(kids, path);
  }

  lemma {:induction false} PutAtSame(kids: seq<Tree>, path: seq<nat>)
    requires IsTreePath(kids, path)
    ensures PutAt(kids, path, TreeAt(kids, path)) == kids
    decreases |path|
  {
    if |path| > 1 {
      PutAtSame(kids[path[0]].kids, path[1..]);
    }
  }

  /** Space for a property that replaces another. */
  lemma ReplaceFits(was: nat, len: nat, insert: nat, n: nat)
    requires insert == (if was < len then len - was else 0) && n == Pairs(insert) + (3 + Words(was))
    ensures 3 + Words(len) <= n
  {
  }

  lemma CreateFits(len: nat)
    ensures 3 + Words(len) <= Pairs(12 + len)
  {
  }

  lemma SpliceLength(b: Blob, c: Blob, o: nat, d: nat, x: seq<byte>, rsv: nat)
    requires Spliced(b, c, o, d, x, rsv)
    ensures |x| < WORD_SPACE
  {
    assert |StructBytes(c)| == b.structureLen - d + |x|;
  }

  /** The length of the property that a lookup finds. */
  function Had(t: Tree, name: seq<byte>): Option<nat> {
    match FirstEntry(t.props, name)
    case None => None
    case Some(i) => Some(|t.props[i].data|)
  }

  /** The space that fdt_set() inserts: what new data exceeds old data by, or else the name, and the property if there is data. */
  function SetSpace(had: Option<nat>, name: seq<byte>, data: Option<seq<byte>>): nat {
    match had
    case Some(len) => if data.None? || |data.value| <= len then 0 else Round8(|data.value| - len)
    case None => Round8(|name| + 1) + if data.None? then 0 else Round8(12 + |data.value|)
  }

  /** The part of fdt_set() that erases an existing property. */
  method EraseExisting(ed: Editor, at: nat, len: nat, name: seq<byte>,
                       ghost e: Elems, ghost path: seq<nat>, ghost p: Elems, ghost rsv: nat)
    returns (ghost u: Elems)
    requires HasProp(ed.State(), e, path, name, p, at, rsv) && len == |p.data|
    modifies ed`raw
    ensures SetDone(old(ed.State()), ed.State(), e, u, path, name, None, rsv)
    ensures Spliced(old(ed.State()), ed.State(), at, PropSize(p.data), NopBytes(3 + Words(len)), rsv)
    ensures 0 < at && StringBytes(ed.State()) == StringBytes(old(ed.State()))
  {
    ghost var b := ed.State();
    PropWithin(b, e, path, name, p, at, rsv);
    var n := 3 + Words(len);
    ed.Erase(at, n, rsv);
    WrittenSpliced(b, ed.State(), at, NopBytes(n), rsv);
    u := PropErased(b, ed.State(), e, path, name, p, at, n, rsv);
  }

  /** The part of fdt_set() that inserts space before `n` NOPs left by an erased property. */
  method Widen(ed: Editor, at: nat, min: nat, ghost b: Blob, ghost size: nat, ghost n: nat, ghost total: nat, ghost rsv: nat)
    returns (r: Result<()>)
    requires Spliced(b, ed.State(), at, size, NopBytes(n), rsv) && 0 < at && total == Pairs(min) + n
    modifies ed
    ensures RoomExact(r.Err?, ed.canRealloc, old(ed.len - ed.used), Round8(min))
    ensures r.Err? ==> ed.State() == old(ed.State()) && r.error == if ed.canRealloc then ENOMEM else ENOTSUP
    ensures r.Ok? ==> Spliced(b, ed.State(), at, size, NopBytes(total), rsv)
  {
    ghost var c := ed.State();
    assert at <= |StructBytes(c)|;
    r := ed.InsertNop(at, min, rsv);
    if r.Ok? {
      NopsTwice(b, c, ed.State(), at, size, n, Pairs(min), total, rsv);
    }
  }

  /** NOPs inserted before NOPs. */
  lemma NopsTwice(b: Blob, c: Blob, a: Blob, o: nat, d: nat, n: nat, m: nat, total: nat, rsv: nat)
    requires Spliced(b, c, o, d, NopBytes(n), rsv) && Spliced(c, a, o, 0, NopBytes(m), rsv) && total == m + n
    ensures Spliced(b, a, o, d, NopBytes(total), rsv)
  {
    var x, y, z := NopBytes(n), NopBytes(m), NopBytes(total);
    assert z == y + x by {
      NopBytesAdd(m, n);
    }
    SplicedTwice(b, c, a, o, d, x, y, z, rsv);
  }

  /** The space that new data lacks is what fdt_set() inserts. */
  lemma RoomLacking(failed: bool, canGrow: bool, free: int, len: nat, insert: nat, name: seq<byte>, data: Option<seq<byte>>)
    requires data.Some? && insert == (if len < |data.value| then |data.value| - len else 0)
    requires RoomExact(failed, canGrow, free, Round8(insert))
    ensures RoomExact(failed, canGrow, free, SetSpace(Some(len), name, data))
  {
  }

  /** The bytes that new data exceeds old data by, and the NOPs there will be room for it in. */
  method Excess(len: nat, size: nat) returns (insert: nat, ghost erase: nat, ghost n: nat)
    ensures insert == (if len < size then size - len else 0)
    ensures erase == 3 + Words(len) && 3 + Words(size) <= n == Pairs(insert) + erase
  {
    insert := if len < size then size - len else 0;
    erase := 3 + Words(len);
    n := Pairs(insert) + erase;
    ReplaceFits(len, size, insert, n);
  }

  /** The part of fdt_set() that finds an existing property and has data for it: erase it, then write the new one over it. */
  method ReplaceData(ed: Editor, at: nat, len: nat, insert: nat, nameOff: nat, name: seq<byte>, data: seq<byte>,
                     ghost e: Elems, ghost path: seq<nat>, ghost p: Elems, ghost erase: nat, ghost n: nat, ghost rsv: nat)
    returns (r: Result<()>, ghost u: Elems)
    requires HasProp(ed.State(), e, path, name, p, at, rsv) && len == |p.data| && nameOff == p.nameOff
    requires erase == 3 + Words(len) && 3 + Words(|data|) <= n == Pairs(insert) + erase
    modifies ed
    ensures SetDone(old(ed.State()), ed.State(), e, u, path, name, if r.Ok? then Some(data) else None, rsv)
    ensures RoomExact(r.Err?, ed.canRealloc, old(ed.len - ed.used), Round8(insert))
    ensures r.Err? ==> r.error == if ed.canRealloc then ENOMEM else ENOTSUP
    ensures StringBytes(ed.State()) == StringBytes(old(ed.State()))
  {
    ghost var b := ed.State();
    u := EraseExisting(ed, at, len, name, e, path, p, rsv);
    r, u := WriteReplacement(ed, at, insert, nameOff, name, data, e, path, p, b, u, erase, n, rsv);
  }

  /** The part of fdt_set() that finds an existing property and has no data for it. */
  method DeleteExisting(ed: Editor, at: nat, len: nat, name: seq<byte>,
                        ghost e: Elems, ghost path: seq<nat>, ghost p: Elems, ghost rsv: nat)
    returns (ghost u: Elems)
    requires HasProp(ed.State(), e, path, name, p, at, rsv) && len == |p.data|
    modifies ed`raw
    ensures SetDone(old(ed.State()), ed.State(), e, u, path, name, None, rsv)
    ensures StringBytes(ed.State()) == StringBytes(old(ed.State()))
  {
    u := EraseExisting(ed, at, len, name, e, path, p, rsv);
  }

  /** The part of fdt_set() that finds an existing property. */
  method ReplaceExisting(ed: Editor, at: nat, len: nat, nameOff: nat, name: seq<byte>, data: Option<seq<byte>>,
                         ghost e: Elems, ghost path: seq<nat>, ghost p: Elems, ghost rsv: nat)
    returns (r: Result<()>, ghost u: Elems)
    requires HasProp(ed.State(), e, path, name, p, at, rsv) && len == |p.data| && nameOff == p.nameOff
    modifies ed
    ensures SetDone(old(ed.State()), ed.State(), e, u, path, name, if r.Ok? then data else None, rsv)
    ensures RoomExact(r.Err?, ed.canRealloc, old(ed.len - ed.used), SetSpace(Some(len), name, data))
    ensures r.Err? ==> r.error == if ed.canRealloc then ENOMEM else ENOTSUP
    ensures StringBytes(ed.State()) == StringBytes(old(ed.State()))
  {
    if data.None? {
      u := DeleteExisting(ed, at, len, name, e, path, p, rsv);
      return Ok(()), u;
    }
    var insert;
    ghost var erase, n;
    insert, erase, n := Excess(len, |data.value|);
    r, u := ReplaceData(ed, at, len, insert, nameOff, name, data.value, e, path, p, erase, n, rsv);
    RoomLacking(r.Err?, ed.canRealloc, old(ed.len - ed.used), len, insert, name, data);
  }

  /** The part of fdt_set() that follows the erasing of a property: insert what is lacking, and write the new one. */
  method WriteReplacement(ed: Editor, at: nat, insert: nat, nameOff: nat, name: seq<byte>, data: seq<byte>,
                          ghost e: Elems, ghost path: seq<nat>, ghost p: Elems, ghost b: Blob, ghost v: Elems,
                          ghost erase: nat, ghost n: nat, ghost rsv: nat)
    returns (r: Result<()>, ghost u: Elems)
    requires HasProp(b, e, path, name, p, at, rsv) && nameOff == p.nameOff && 0 < at
    requires SetDone(b, ed.State(), e, v, path, name, None, rsv) && StringBytes(ed.State()) == StringBytes(b)
    requires Spliced(b, ed.State(), at, PropSize(p.data), NopBytes(erase), rsv)
    requires 3 + Words(|data|) <= n == Pairs(insert) + erase
    modifies ed
    ensures SetDone(b, ed.State(), e, u, path, name, if r.Ok? then Some(data) else None, rsv)
    ensures RoomExact(r.Err?, ed.canRealloc, old(ed.len - ed.used), Round8(insert))
    ensures r.Err? ==> r.error == if ed.canRealloc then ENOMEM else ENOTSUP
    ensures StringBytes(ed.State()) == StringBytes(b)
  {
    u := v;
    ghost var size := PropSize(p.data);
    r := Widen(ed, at, insert, b, size, erase, n, rsv);
    if r.Ok? {
      u := WriteOver(ed, at, nameOff, name, data, e, path, p, b, size, n, rsv);
    }
  }

  /** The part of fdt_set() that writes a property over the NOPs in place of the one erased. */
  method WriteOver(ed: Editor, at: nat, nameOff: nat, name: seq<byte>, data: seq<byte>,
                   ghost e: Elems, ghost path: seq<nat>, ghost p: Elems, ghost b: Blob, ghost size: nat, ghost n: nat, ghost rsv: nat)
    returns (ghost u: Elems)
    requires HasProp(b, e, path, name, p, at, rsv) && nameOff == p.nameOff && size == PropSize(p.data)
    requires 3 + Words(|data|) <= n && Spliced(b, ed.State(), at, size, NopBytes(n), rsv)
    modifies ed`raw
    ensures SetDone(b, ed.State(), e, u, path, name, Some(data), rsv)
    ensures StringBytes(ed.State()) == StringBytes(b)
  {
    PropWithin(b, e, path, name, p, at, rsv);
    SpliceLength(b, ed.State(), at, size, NopBytes(n), rsv);
    WriteProp(ed, at, nameOff, data, b, size, n, rsv);
    u := PropSet(b, ed.State(), e, path, name, p, at, n, data, rsv);
  }

  /** fdt_enter() on the encoded tree. */
  lemma EnterPosition(b: Blob, e: Elems, path: seq<nat>, offset: nat, rsv: nat)
    requires Encodes(b, e, rsv) && IsPath(e, path) && Starts(e, path, offset)
    ensures Pos(View(b), offset)
    ensures var r := Enter(TokensOf(View(b)), b.len, offset); r.Ok? && r.value.next == BodyAt(e, path)
  {
    EncodesRepresents(b, e, rsv);
    EnterStarts(View(b), e, path, offset);
  }

  /** The part of fdt_set() that finds no property: add its name, then write it at the start of the node. */
  method CreateNew(ed: Editor, offset: nat, name: seq<byte>, data: Option<seq<byte>>,
                   ghost e: Elems, ghost path: seq<nat>, ghost rsv: nat)
    returns (r: Result<()>, ghost u: Elems)
    requires Encodes(ed.State(), e, rsv) && IsPath(e, path) && Starts(e, path, offset) && 0 !in name && 0 < ed.stringsLen
    requires IsTreePath(KidsOf(StringBytes(ed.State()), e), path)
    requires FirstEntry(TreeAt(KidsOf(StringBytes(ed.State()), e), path).props, name).None?
    modifies ed
    ensures SetDone(old(ed.State()), ed.State(), e, u, path, name, if r.Ok? then data else None, rsv)
    ensures RoomExact(r.Err?, ed.canRealloc, old(ed.len - ed.used), SetSpace(None, name, data))
    ensures r.Err? ==> r.error == if ed.canRealloc then ENOMEM else ENOTSUP
    ensures r.Ok? ==> StringBytes(ed.State()) == StringBytes(old(ed.State())) + StringSpace(name)
  {
    ghost var b := ed.State();
    u := e;
    var nameOff := AddName(ed, name, e, path, rsv);
    if nameOff.Err? {
      NothingDeleted(b, b, e, path, name, rsv);
      return Err(nameOff.error), u;
    }
    ghost var c := ed.State();
    NothingDeleted(b, c, e, path, name, rsv);
    EnterPosition(c, e, path, offset, rsv);
    var d := FdtEnter(View(ed.State()), offset);
    if d.Err? {
      assert false;
    }
    if data.None? {
      return Ok(()), u;
    }
    r, u := WriteNew(ed, d.value.next, nameOff.value, name, data.value, e, path, rsv);
    if r.Ok? {
      EditedTwice(b, c, ed.State(), rsv);
    }
  }

  /** The part of fdt_set() that creates the name: the tree is as it was. */
  method AddName(ed: Editor, name: seq<byte>, ghost e: Elems, ghost path: seq<nat>, ghost rsv: nat) returns (r: Result<nat>)
    requires Encodes(ed.State(), e, rsv) && 0 !in name && 0 < ed.stringsLen
    modifies ed
    ensures RoomExact(r.Err?, ed.canRealloc, old(ed.len - ed.used), Round8(|name| + 1))
    ensures r.Err? ==> ed.State() == old(ed.State()) && r.error == if ed.canRealloc then ENOMEM else ENOTSUP
    ensures r.Ok? ==> ed.used == old(ed.used) + Round8(|name| + 1) && ed.len == LenAfter(old(ed.State()), Round8(|name| + 1))
    ensures r.Ok? ==> StringsGrown(old(ed.State()), ed.State(), StringSpace(name), rsv)
    ensures r.Ok? ==> Encodes(ed.State(), e, rsv) && KidsOf(StringBytes(ed.State()), e) == old(KidsOf(StringBytes(ed.State()), e))
    ensures r.Ok? ==> r.value < |StringBytes(ed.State())| && CStr(StringBytes(ed.State()), r.value) == name
  {
    ghost var b, c := ed.State(), ed.State();
    r, c := ed.InsertString(name, rsv);
    if r.Ok? {
      StringInserted(b, c, ed.State(), Round8(|name| + 1), name + [0], rsv);
      StringAdded(b, ed.State(), e, name, rsv);
    }
  }

  /** The part of fdt_set() that inserts a new property at the start of the node. */
  method WriteNew(ed: Editor, at: nat, nameOff: nat, name: seq<byte>, data: seq<byte>,
                  ghost e: Elems, ghost path: seq<nat>, ghost rsv: nat)
    returns (r: Result<()>, ghost u: Elems)
    requires Encodes(ed.State(), e, rsv) && IsPath(e, path) && IsTreePath(KidsOf(StringBytes(ed.State()), e), path)
    requires FirstEntry(TreeAt(KidsOf(StringBytes(ed.State()), e), path).props, name).None? && at == BodyAt(e, path)
    requires nameOff < |StringBytes(ed.State())| && CStr(StringBytes(ed.State()), nameOff) == name
    modifies ed
    ensures RoomExact(r.Err?, ed.canRealloc, old(ed.len - ed.used), Round8(12 + |data|))
    ensures r.Err? ==> ed.State() == old(ed.State()) && u == e && r.error == if ed.canRealloc then ENOMEM else ENOTSUP
    ensures r.Ok? ==> SetDone(old(ed.State()), ed.State(), e, u, path, name, Some(data), rsv)
    ensures r.Ok? ==> StringBytes(ed.State()) == StringBytes(old(ed.State()))
  {
    ghost var c := ed.State();
    u := e;
    BodyWithin(c, e, path, rsv);
    r := ed.InsertNop(at, 12 + |data|, rsv);
    if r.Err? {
      return;
    }
    CreateFits(|data|);
    ghost var n := Pairs(12 + |data|);
    SpliceLength(c, ed.State(), at, 0, NopBytes(n), rsv);
    WriteProp(ed, at, nameOff, data, c, 0, n, rsv);
    u := PropCreated(c, ed.State(), e, path, name, nameOff, n, data, rsv);
  }

  /** Whether there is a property to replace, as fdt_property() answers it. */
  lemma Located(b: Blob, e: Elems, path: seq<nat>, offset: nat, name: seq<byte>, rsv: nat)
    requires Encodes(b, e, rsv) && IsPath(e, path) && Starts(e, path, offset)
    ensures Pos(View(b), offset) && IsTreePath(KidsOf(StringBytes(b), e), path)
    ensures FirstEntry(TreeAt(KidsOf(StringBytes(b), e), path).props, name).Some?
            <==> Property(TokensOf(View(b)), b.len, offset, name).Ok?
    ensures FirstEntry(TreeAt(KidsOf(StringBytes(b), e), path).props, name).Some?
            <==> FirstPropElem(StringBytes(b), PathNode(e, path).body, name).Some?
  {
    EncodesRepresents(b, e, rsv);
    PropertyMissing(View(b), e, path, offset, name);
  }

  /** The property to replace, as fdt_property() describes it. */
  lemma Locate(b: Blob, e: Elems, path: seq<nat>, offset: nat, name: seq<byte>, rsv: nat) returns (p: Elems, o: nat)
    requires Encodes(b, e, rsv) && IsPath(e, path) && Starts(e, path, offset)
    requires FirstPropElem(StringBytes(b), PathNode(e, path).body, name).Some?
    ensures HasProp(b, e, path, name, p, o, rsv) && NameField(View(b), o) == p.nameOff
    ensures var r := Property(TokensOf(View(b)), b.len, offset, name); r.Ok? && r.value.offset == o && r.value.len == |p.data|
  {
    p := FirstPropElem(StringBytes(b), PathNode(e, path).body, name).value;
    o := BodyAt(e, path) + PropAt(StringBytes(b), PathNode(e, path).body, name);
    PropertyLocated(b, e, path, offset, name, p, o, rsv);
  }

  lemma PropertyLocated(b: Blob, e: Elems, path: seq<nat>, offset: nat, name: seq<byte>, p: Elems, o: nat, rsv: nat)
    requires HasProp(b, e, path, name, p, o, rsv) && Starts(e, path, offset)
    ensures NameField(View(b), o) == p.nameOff
    ensures var r := Property(TokensOf(View(b)), b.len, offset, name); r.Ok? && r.value.offset == o && r.value.len == |p.data|
  {
    EncodesRepresents(b, e, rsv);
    PropertyPosition(View(b), e, path, offset, name, p, o);
  }

  /** Deleting leaves the tree unchanged exactly if there is nothing to delete. */
  lemma DeleteUnchanged(kids: seq<Tree>, path: seq<nat>, name: seq<byte>)
    requires IsTreePath(kids, path)
    ensures PutAt(kids, path, SetProp(TreeAt(kids, path), name, None)) == kids <==> Had(TreeAt(kids, path), name).None?
  {
    var t := TreeAt(kids, path);
    ReplaceEntryIs(t.props, name, []);
    if FirstEntry(t.props, name).None? {
      PutAtSame(kids, path);
    } else {
      PutAtReads(kids, path, SetProp(t, name, None), path);
    }
  }

  /** What fdt_set() does besides changing the tree: when it fails, and what becomes of the strings block. */
  ghost predicate SetCosts(b: Blob, c: Blob, e: Elems, u: Elems, t: Tree, name: seq<byte>, data: Option<seq<byte>>,
                           failed: bool, canGrow: bool)
    requires b.strings + b.stringsLen <= |b.raw| && c.strings + c.stringsLen <= |c.raw|
  {
    && RoomExact(failed, canGrow, b.len - b.used, SetSpace(Had(t, name), name, data))
    && (failed ==> (KidsOf(StringBytes(c), u) == KidsOf(StringBytes(b), e) <==> Had(t, name).None?))
    && (!failed ==> StringBytes(c) == StringBytes(b) + if Had(t, name).Some? then [] else StringSpace(name))
  }

  /**
    fdt_set(): the property is set, or deleted if there is no data. It fails only for lack
    of free space for what it inserts, and always does so if the blob cannot grow; an
    existing property is then lost. A new name is added to the strings block even to
    delete a property that does not exist.
   */
  method Set(ed: Editor, offset: nat, name: seq<byte>, data: Option<seq<byte>>,
             ghost e: Elems, ghost path: seq<nat>, ghost rsv: nat)
    returns (r: Result<()>, ghost u: Elems)
    requires Encodes(ed.State(), e, rsv) && IsPath(e, path) && Starts(e, path, offset) && 0 !in name && 0 < ed.stringsLen
    modifies ed
    ensures SetDone(old(ed.State()), ed.State(), e, u, path, name, if r.Ok? then data else None, rsv)
    ensures r.Err? ==> r.error == if ed.canRealloc then ENOMEM else ENOTSUP
    ensures SetCosts(old(ed.State()), ed.State(), e, u, TreeAt(KidsOf(StringBytes(old(ed.State())), e), path), name, data,
                     r.Err?, ed.canRealloc)
  {
    ghost var b := ed.State();
    Located(b, e, path, offset, name, rsv);
    DeleteUnchanged(KidsOf(StringBytes(b), e), path, name);
    var d := FdtProperty(View(ed.State()), offset, name);
    if d.Ok? {
      ghost var p, o := Locate(b, e, path, offset, name, rsv);
      PropNamed(b, e, path, name, p, o, rsv);
      var nameOff := NameField(View(ed.State()), d.value.offset);
      r, u := ReplaceExisting(ed, d.value.offset, d.value.len, nameOff, name, data, e, path, p, rsv);
      assert StringBytes(b) + [] == StringBytes(b);
    } else {
      r, u := CreateNew(ed, offset, name, data, e, path, rsv);
    }
  }
}
