/** Replacing the contents of one node: what it does to the bytes, and what it does to the tree. */
module FdtSplice {
  import opened Basics
  import opened FdtFormat
  import opened FdtWalk
  import opened FdtTree
  import opened FdtSpec
  import opened FdtRead
  import opened FdtReadLaws

  /** `s` with `d` elements at `o` replaced by `x`. */
  function Splice(s: seq<byte>, o: nat, d: nat, x: seq<byte>): seq<byte>
    requires o + d <= |s|
  {
    s[..o] + x + s[o + d..]
  }

  /** `t` is `s` with the part `was` at `o` replaced by `x`. */
  predicate Replaces(s: seq<byte>, t: seq<byte>, o: nat, was: seq<byte>, x: seq<byte>) {
    o + |was| <= |s| && s[o..o + |was|] == was && t == Splice(s, o, |was|, x)
  }

  /** A replacement in a part is a replacement in the whole. */
  lemma ReplacesInside(a: seq<byte>, s: seq<byte>, z: seq<byte>, t: seq<byte>, o: nat, was: seq<byte>, x: seq<byte>, p: nat)
    requires Replaces(s, t, o, was, x) && p == |a| + o
    ensures Replaces(a + (s + z), a + (t + z), p, was, x)
  {
    var w, d := a + (s + z), |was|;
    assert w[p..p + d] == s[o..o + d];
    assert w[..p] == a + s[..o];
    assert w[p + d..] == s[o + d..] + z;
  }

  lemma ReplacesTail(a: seq<byte>, s: seq<byte>, t: seq<byte>, o: nat, was: seq<byte>, x: seq<byte>, p: nat)
    requires Replaces(s, t, o, was, x) && p == |a| + o
    ensures Replaces(a + s, a + t, p, was, x)
  {
    ReplacesInside(a, s, [], t, o, was, x, p);
    assert s + [] == s && t + [] == t;
  }

  lemma ReplacesHead(s: seq<byte>, z: seq<byte>, t: seq<byte>, o: nat, was: seq<byte>, x: seq<byte>)
    requires Replaces(s, t, o, was, x)
    ensures Replaces(s + z, t + z, o, was, x)
  {
    ReplacesInside([], s, z, t, o, was, x, o);
    assert [] + (s + z) == s + z && [] + (t + z) == t + z;
  }

  /** Replacing a part by a replacement of itself is a smaller replacement in the whole. */
  lemma ReplacesNested(s: seq<byte>, t: seq<byte>, i: nat, b: seq<byte>, c: seq<byte>, o: nat, was: seq<byte>, x: seq<byte>, p: nat)
    requires Replaces(s, t, i, b, c) && Replaces(b, c, o, was, x) && p == i + o
    ensures Replaces(s, t, p, was, x)
  {
    assert s == s[..i] + (b + s[i + |b|..]);
    assert t == s[..i] + (c + s[i + |b|..]);
    ReplacesInside(s[..i], b, s[i + |b|..], c, o, was, x, p);
  }

  // Replacing the contents of the node at a path.

  function UpdateBody(e: Elems, path: seq<nat>, b: Elems): Elems
    requires IsPath(e, path)
    decreases e
  {
    match e
    case Nop(rest) => Nop(UpdateBody(rest, path, b))
    case Prop(nameOff, data, pad, rest) => Prop(nameOff, data, pad, UpdateBody(rest, path, b))
    case Node(n, pad, body, rest) =>
      if path[0] > 0 then Node(n, pad, body, UpdateBody(rest, Down(path), b))
      else if |path| == 1 then Node(n, pad, b, rest)
      else Node(n, pad, UpdateBody(body, path[1..], b), rest)
  }

  /** The updated list is as well formed as its parts. */
  lemma {:induction false} UpdateKeeps(e: Elems, path: seq<nat>, b: Elems, stringsLen: nat)
    requires IsPath(e, path) && NamesIn(e, stringsLen) && PropsFirst(e) && NamesIn(b, stringsLen) && PropsFirst(b)
    ensures var u := UpdateBody(e, path, b); NamesIn(u, stringsLen) && PropsFirst(u) && (NoProps(e) ==> NoProps(u))
    decreases e
  {
    match e
    case Nop(rest) => UpdateKeeps(rest, path, b, stringsLen);
    case Prop(_, _, _, rest) => UpdateKeeps(rest, path, b, stringsLen);
    case Node(n, pad, body, rest) =>
      if path[0] > 0 {
        UpdateKeeps(rest, Down(path), b, stringsLen);
      } else if |path| > 1 {
        UpdateKeeps(body, path[1..], b, stringsLen);
      }
  }

  /** Where the contents of the node at `path` begin, counted from the start of `e`. */
  function BodyAt(e: Elems, path: seq<nat>): nat
    requires IsPath(e, path)
  {
    match e
    case Nop(rest) => 4 + BodyAt(rest, path)
    case Prop(_, data, _, rest) => PropSize(data) + BodyAt(rest, path)
    case Node(n, _, body, rest) =>
      if path[0] > 0 then HeadSize(n) + 4 * Size(body) + 4 + BodyAt(rest, Down(path))
      else if |path| == 1 then HeadSize(n)
      else HeadSize(n) + BodyAt(body, path[1..])
  }

  lemma {:induction false} BodyAtIs(e: Elems, off: nat, path: seq<nat>)
    requires IsPath(e, path)
    ensures NodeInner(PathOff(e, off, path), PathNode(e, path).name) == off + BodyAt(e, path)
    decreases e
  {
    match e
    case Nop(rest) => BodyAtIs(rest, off + 4, path);
    case Prop(_, data, _, rest) => BodyAtIs(rest, PropNext(off, data), path);
    case Node(n, _, body, rest) =>
      if path[0] > 0 {
        BodyAtIs(rest, NodeNext(off, n, body), Down(path));
      } else if |path| > 1 {
        BodyAtIs(body, NodeInner(off, n), path[1..]);
      }
  }

  lemma {:induction false} WfPath(e: Elems, path: seq<nat>)
    requires IsPath(e, path) && Wf(e)
    ensures Wf(PathNode(e, path))
    decreases e
  {
    match e
    case Nop(rest) => WfPath(rest, path);
    case Prop(_, _, _, rest) => WfPath(rest, path);
    case Node(n, pad, body, rest) =>
      if path[0] > 0 {
        WfPath(rest, Down(path));
      } else if |path| > 1 {
        WfPath(body, path[1..]);
      }
  }

  /** The bytes of the updated list are the old bytes with the old contents replaced by the new. */
  ghost predicate UpdateReplaces(e: Elems, path: seq<nat>, b: Elems)
    requires IsPath(e, path)
  {
    var n, u := PathNode(e, path), UpdateBody(e, path, b);
    && Wf(e) && Wf(n) && Wf(b) && Wf(u)
    && Replaces(Enc(e), Enc(u), BodyAt(e, path), Enc(n.body), Enc(b))
  }

  lemma {:induction false} UpdateSplices(e: Elems, path: seq<nat>, b: Elems)
    requires IsPath(e, path) && Wf(e) && Wf(b)
    ensures UpdateReplaces(e, path, b)
    decreases e
  {
    match e
    case Nop(rest) =>
      UpdateSplices(rest, path, b);
      UpdateNop(e, path, b);
    case Prop(_, _, _, rest) =>
      UpdateSplices(rest, path, b);
      UpdateProp(e, path, b);
    case Node(_, _, body, rest) =>
      if path[0] > 0 {
        UpdateSplices(rest, Down(path), b);
        UpdateRest(e, path, b);
      } else if |path| == 1 {
        UpdateHere(e, path, b);
      } else {
        UpdateSplices(body, path[1..], b);
        UpdateInner(e, path, b);
      }
  }

  lemma UpdateNop(e: Elems, path: seq<nat>, b: Elems)
    requires e.Nop? && IsPath(e, path) && UpdateReplaces(e.rest, path, b)
    ensures UpdateReplaces(e, path, b)
  {
    ReplacesTail(BE32(FDT_NOP), Enc(e.rest), Enc(UpdateBody(e.rest, path, b)), BodyAt(e.rest, path),
                 Enc(PathNode(e, path).body), Enc(b), BodyAt(e, path));
  }

  lemma UpdateProp(e: Elems, path: seq<nat>, b: Elems)
    requires e.Prop? && Wf(e) && IsPath(e, path) && UpdateReplaces(e.rest, path, b)
    ensures UpdateReplaces(e, path, b)
  {
    PropAligned(e.nameOff, e.data, e.pad);
    ReplacesTail(PropToken(e.nameOff, e.data, e.pad), Enc(e.rest), Enc(UpdateBody(e.rest, path, b)), BodyAt(e.rest, path),
                 Enc(PathNode(e, path).body), Enc(b), BodyAt(e, path));
  }

  lemma UpdateRest(e: Elems, path: seq<nat>, b: Elems)
    requires e.Node? && Wf(e) && IsPath(e, path) && path[0] > 0 && UpdateReplaces(e.rest, Down(path), b)
    ensures UpdateReplaces(e, path, b)
  {
    ReplacesRest(e, UpdateBody(e.rest, Down(path), b), BodyAt(e.rest, Down(path)),
                 Enc(PathNode(e, path).body), Enc(b), BodyAt(e, path));
  }

  lemma UpdateHere(e: Elems, path: seq<nat>, b: Elems)
    requires e.Node? && Wf(e) && Wf(b) && IsPath(e, path) && path[0] == 0 && |path| == 1
    ensures UpdateReplaces(e, path, b)
  {
    var was, x := Enc(e.body), Enc(b);
    assert Replaces(was, x, 0, was, x);
    ReplacesBody(e, b, 0, was, x, BodyAt(e, path));
  }

  lemma UpdateInner(e: Elems, path: seq<nat>, b: Elems)
    requires e.Node? && Wf(e) && IsPath(e, path) && path[0] == 0 && |path| > 1 && UpdateReplaces(e.body, path[1..], b)
    ensures UpdateReplaces(e, path, b)
  {
    ReplacesBody(e, UpdateBody(e.body, path[1..], b), BodyAt(e.body, path[1..]),
                 Enc(PathNode(e, path).body), Enc(b), BodyAt(e, path));
  }

  lemma ReplacesBody(e: Elems, b: Elems, o: nat, was: seq<byte>, x: seq<byte>, p: nat)
    requires e.Node? && Wf(e) && Wf(b) && Replaces(Enc(e.body), Enc(b), o, was, x) && p == HeadSize(e.name) + o
    ensures Replaces(Enc(e), Enc(Node(e.name, e.pad, b, e.rest)), p, was, x)
  {
    HeadAligned(e.name, e.pad);
    ReplacesInside(NodeHead(e.name, e.pad), Enc(e.body), BE32(FDT_END_NODE) + Enc(e.rest), Enc(b), o, was, x, p);
  }

  lemma ReplacesRest(e: Elems, r: Elems, o: nat, was: seq<byte>, x: seq<byte>, p: nat)
    requires e.Node? && Wf(e) && Wf(r) && Replaces(Enc(e.rest), Enc(r), o, was, x)
    requires p == HeadSize(e.name) + 4 * Size(e.body) + 4 + o
    ensures Replaces(Enc(e), Enc(Node(e.name, e.pad, e.body, r)), p, was, x)
  {
    HeadAligned(e.name, e.pad);
    EncSize(e.body);
    var end := BE32(FDT_END_NODE);
    var q := 4 * Size(e.body) + 4 + o;
    ReplacesTail(end, Enc(e.rest), Enc(r), o, was, x, 4 + o);
    ReplacesTail(Enc(e.body), end + Enc(e.rest), end + Enc(r), 4 + o, was, x, q);
    ReplacesTail(NodeHead(e.name, e.pad), Enc(e.body) + (end + Enc(e.rest)), Enc(e.body) + (end + Enc(r)), q, was, x, p);
  }

  // Lists of elements, one after the other.

  function Cat(a: Elems, b: Elems): Elems {
    match a
    case Nil => b
    case Nop(rest) => Nop(Cat(rest, b))
    case Prop(nameOff, data, pad, rest) => Prop(nameOff, data, pad, Cat(rest, b))
    case Node(n, pad, body, rest) => Node(n, pad, body, Cat(rest, b))
  }

  lemma Assoc(a: seq<byte>, b: seq<byte>, c: seq<byte>)
    ensures a + (b + c) == (a + b) + c
  {
  }

  lemma {:induction false} CatEnc(a: Elems, b: Elems)
    requires Wf(a) && Wf(b)
    ensures Wf(Cat(a, b)) && Enc(Cat(a, b)) == Enc(a) + Enc(b)
  {
    match a
    case Nil => assert [] + Enc(b) == Enc(b);
    case Nop(rest) =>
      CatEnc(rest, b);
      Assoc(BE32(FDT_NOP), Enc(rest), Enc(b));
    case Prop(nameOff, data, pad, rest) =>
      CatEnc(rest, b);
      Assoc(PropToken(nameOff, data, pad), Enc(rest), Enc(b));
    case Node(n, pad, body, rest) =>
      CatEnc(rest, b);
      var end := BE32(FDT_END_NODE);
      Assoc(end, Enc(rest), Enc(b));
      Assoc(Enc(body), end + Enc(rest), Enc(b));
      Assoc(NodeHead(n, pad), Enc(body) + (end + Enc(rest)), Enc(b));
  }

  lemma {:induction false} CatTrees(names: seq<byte>, a: Elems, b: Elems)
    ensures PropsOf(names, Cat(a, b)) == PropsOf(names, a) + PropsOf(names, b)
    ensures KidsOf(names, Cat(a, b)) == KidsOf(names, a) + KidsOf(names, b)
    decreases a
  {
    match a
    case Nil =>
    case Nop(rest) => CatTrees(names, rest, b);
    case Prop(_, _, _, rest) => CatTrees(names, rest, b);
    case Node(_, _, _, rest) => CatTrees(names, rest, b);
  }

  lemma {:induction false} CatKeeps(a: Elems, b: Elems, stringsLen: nat)
    requires NamesIn(a, stringsLen) && NamesIn(b, stringsLen) && PropsFirst(a) && PropsFirst(b)
    requires NoProps(b) || KidsOf([], a) == []
    ensures NamesIn(Cat(a, b), stringsLen) && PropsFirst(Cat(a, b))
    ensures NoProps(Cat(a, b)) <==> NoProps(a) && NoProps(b)
  {
    match a
    case Nil =>
    case Nop(rest) => CatKeeps(rest, b, stringsLen);
    case Prop(_, _, _, rest) => CatKeeps(rest, b, stringsLen);
    case Node(_, _, _, rest) => CatKeeps(rest, b, stringsLen);
  }

  function Nops(n: nat): Elems {
    if n == 0 then Nil else Nop(Nops(n - 1))
  }

  lemma {:induction false} NopsAre(n: nat, names: seq<byte>)
    ensures Wf(Nops(n)) && NoProps(Nops(n)) && PropsFirst(Nops(n)) && Size(Nops(n)) == n
    ensures PropsOf(names, Nops(n)) == [] && KidsOf(names, Nops(n)) == [] && NamesIn(Nops(n), |names|)
  {
    if n > 0 {
      NopsAre(n - 1, names);
    }
  }

  // Replacing the first property of a given name.

  /** `e` with its first property named `name` replaced by the elements `x`. */
  function ReplaceProp(names: seq<byte>, e: Elems, name: seq<byte>, x: Elems): Elems {
    match e
    case Nil => Nil
    case Nop(rest) => Nop(ReplaceProp(names, rest, name, x))
    case Prop(nameOff, data, pad, rest) =>
      if Match(CStr(names, nameOff), name) then Cat(x, rest)
      else Prop(nameOff, data, pad, ReplaceProp(names, rest, name, x))
    case Node(n, pad, body, rest) => e
  }

  /** Where the first property named `name` begins, counted from the start of `e`. */
  function PropAt(names: seq<byte>, e: Elems, name: seq<byte>): nat
    requires FirstPropElem(names, e, name).Some?
  {
    match e
    case Nop(rest) => 4 + PropAt(names, rest, name)
    case Prop(nameOff, data, _, rest) =>
      if Match(CStr(names, nameOff), name) then 0 else PropSize(data) + PropAt(names, rest, name)
  }

  lemma {:induction false} PropAtIs(names: seq<byte>, e: Elems, off: nat, name: seq<byte>, o: nat)
    requires FirstPropElem(names, e, name).Some? && o == off + PropAt(names, e, name)
    ensures FirstProp(names, e, off, name) == Some(o)
    decreases e
  {
    match e
    case Nop(rest) => PropAtIs(names, rest, off + 4, name, o);
    case Prop(nameOff, data, _, rest) =>
      if !Match(CStr(names, nameOff), name) {
        PropAtIs(names, rest, PropNext(off, data), name, o);
      }
  }

  /** The bytes of a property on its own. */
  function PropBytes(e: Elems): seq<byte>
    requires e.Prop? && Wf(e)
  {
    PropToken(e.nameOff, e.data, e.pad)
  }

  lemma {:induction false} ReplacePropSplices(names: seq<byte>, e: Elems, name: seq<byte>, x: Elems)
    requires Wf(e) && Wf(x) && FirstPropElem(names, e, name).Some?
    ensures Wf(FirstPropElem(names, e, name).value) && Wf(ReplaceProp(names, e, name, x))
    ensures Replaces(Enc(e), Enc(ReplaceProp(names, e, name, x)), PropAt(names, e, name),
                     PropBytes(FirstPropElem(names, e, name).value), Enc(x))
    decreases e
  {
    match e
    case Nop(rest) =>
      ReplacePropSplices(names, rest, name, x);
      ReplacesTail(BE32(FDT_NOP), Enc(rest), Enc(ReplaceProp(names, rest, name, x)), PropAt(names, rest, name),
                   PropBytes(FirstPropElem(names, e, name).value), Enc(x), PropAt(names, e, name));
    case Prop(nameOff, data, pad, rest) =>
      if Match(CStr(names, nameOff), name) {
        ReplacesHere(PropBytes(e), Enc(rest), Enc(x));
        CatEnc(x, rest);
      } else {
        ReplacePropSplices(names, rest, name, x);
        PropAligned(nameOff, data, pad);
        ReplacesTail(PropBytes(e), Enc(rest), Enc(ReplaceProp(names, rest, name, x)), PropAt(names, rest, name),
                     PropBytes(FirstPropElem(names, e, name).value), Enc(x), PropAt(names, e, name));
      }
  }

  lemma ReplacesHere(was: seq<byte>, z: seq<byte>, x: seq<byte>)
    ensures Replaces(was + z, x + z, 0, was, x)
  {
  }

  /** `props` with the first property named `name` replaced by `xs`. */
  function ReplaceEntry(props: seq<Entry>, name: seq<byte>, xs: seq<Entry>): seq<Entry> {
    if props == [] then []
    else if Match(props[0].name, name) then xs + props[1..]
    else [props[0]] + ReplaceEntry(props[1..], name, xs)
  }

  lemma {:induction false} ReplaceEntryIs(props: seq<Entry>, name: seq<byte>, xs: seq<Entry>)
    ensures ReplaceEntry(props, name, xs) ==
            match FirstEntry(props, name)
            case None => props
            case Some(i) => props[..i] + xs + props[i + 1..]
  {
    if props != [] && !Match(props[0].name, name) {
      ReplaceEntryIs(props[1..], name, xs);
      match FirstEntry(props[1..], name) {
        case None =>
        case Some(i) =>
          assert props[..i + 1] == [props[0]] + props[1..][..i];
          assert props[i + 2..] == props[1..][i + 1..];
      }
    }
  }

  /** What the replacement does to the properties and child nodes. */
  lemma {:induction false} ReplacePropTrees(names: seq<byte>, e: Elems, name: seq<byte>, x: Elems)
    requires PropsFirst(e) && KidsOf(names, x) == []
    ensures KidsOf(names, ReplaceProp(names, e, name, x)) == KidsOf(names, e)
    ensures PropsOf(names, ReplaceProp(names, e, name, x)) == ReplaceEntry(PropsOf(names, e), name, PropsOf(names, x))
    decreases e
  {
    match e
    case Nil =>
    case Nop(rest) => ReplacePropTrees(names, rest, name, x);
    case Prop(nameOff, data, pad, rest) =>
      assert PropsOf(names, e)[1..] == PropsOf(names, rest);
      if Match(CStr(names, nameOff), name) {
        CatTrees(names, x, rest);
      } else {
        ReplacePropTrees(names, rest, name, x);
      }
    case Node(_, _, _, rest) => NoPropsEmpty(names, rest);
  }

  lemma {:induction false} ReplacePropKeeps(names: seq<byte>, e: Elems, name: seq<byte>, x: Elems, stringsLen: nat)
    requires NamesIn(e, stringsLen) && PropsFirst(e) && NamesIn(x, stringsLen) && PropsFirst(x) && KidsOf([], x) == []
    ensures var r := ReplaceProp(names, e, name, x); NamesIn(r, stringsLen) && PropsFirst(r)
    decreases e
  {
    match e
    case Nil =>
    case Nop(rest) => ReplacePropKeeps(names, rest, name, x, stringsLen);
    case Prop(nameOff, _, _, rest) =>
      if Match(CStr(names, nameOff), name) {
        CatKeeps(x, rest, stringsLen);
      } else {
        ReplacePropKeeps(names, rest, name, x, stringsLen);
      }
    case Node(_, _, _, _) =>
  }

  // The tree of the updated list.

  /** `kids` with the subtree at `path` replaced. */
  function PutAt(kids: seq<Tree>, path: seq<nat>, t: Tree): seq<Tree>
    requires IsTreePath(kids, path)
    decreases |path|
  {
    var k := path[0];
    if |path| == 1 then kids[k := t]
    else kids[k := Tree(kids[k].name, kids[k].props, PutAt(kids[k].kids, path[1..], t))]
  }

  /**
    Replacing a subtree is what a lookup there sees. Every path that neither leads to it
    nor passes through it is unchanged, and its ancestors keep their names and properties.
   */
  lemma {:induction false} PutAtReads(kids: seq<Tree>, path: seq<nat>, t: Tree, other: seq<nat>)
    requires IsTreePath(kids, path)
    ensures IsTreePath(PutAt(kids, path, t), path) && TreeAt(PutAt(kids, path, t), path) == t
    ensures IsTreePath(kids, other) && !(path <= other) && !(other <= path) ==>
              IsTreePath(PutAt(kids, path, t), other) && TreeAt(PutAt(kids, path, t), other) == TreeAt(kids, other)
    ensures [] < other < path ==>
              && IsTreePath(PutAt(kids, path, t), other) && IsTreePath(kids, other)
              && var a, c := TreeAt(kids, other), TreeAt(PutAt(kids, path, t), other);
              && c.name == a.name && c.props == a.props && |c.kids| == |a.kids|
    decreases |path|
  {
    var k := path[0];
    if |path| > 1 {
      PutAtReads(kids[k].kids, path[1..], t, if other == [] then [] else other[1..]);
      if [] < other < path {
        assert other[1..] < path[1..];
      }
      if other != [] && other[0] == k {
        assert path[1..] <= other[1..] ==> path <= other;
        assert other[1..] <= path[1..] ==> other <= path;
      }
    } else if other != [] && other[0] == k {
      assert path <= other;
    }
  }

  lemma {:induction false} UpdateTrees(names: seq<byte>, e: Elems, path: seq<nat>, b: Elems)
    requires IsPath(e, path)
    ensures PropsOf(names, UpdateBody(e, path, b)) == PropsOf(names, e)
    ensures IsTreePath(KidsOf(names, e), path)
    ensures KidsOf(names, UpdateBody(e, path, b))
            == PutAt(KidsOf(names, e), path, Tree(PathNode(e, path).name, PropsOf(names, b), KidsOf(names, b)))
    decreases e
  {
    PathTree(names, e, path);
    match e
    case Nop(rest) => UpdateTrees(names, rest, path, b);
    case Prop(_, _, _, rest) => UpdateTrees(names, rest, path, b);
    case Node(n, pad, body, rest) =>
      var kids := KidsOf(names, e);
      if path[0] > 0 {
        UpdateTrees(names, rest, Down(path), b);
        PutAtDown(kids, path, Tree(PathNode(e, path).name, PropsOf(names, b), KidsOf(names, b)));
        assert kids[1..] == KidsOf(names, rest);
      } else if |path| > 1 {
        UpdateTrees(names, body, path[1..], b);
      }
  }

  lemma PutAtDown(kids: seq<Tree>, path: seq<nat>, t: Tree)
    requires IsTreePath(kids, path) && path[0] > 0
    ensures IsTreePath(kids[1..], Down(path))
    ensures PutAt(kids, path, t) == [kids[0]] + PutAt(kids[1..], Down(path), t)
  {
    assert Down(path)[1..] == path[1..];
  }
}
