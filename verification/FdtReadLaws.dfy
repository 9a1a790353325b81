/** The readers, stated on the tree that a buffer serialises. */
module FdtReadLaws {
  import opened Basics
  import opened FdtFormat
  import opened FdtWalk
  import opened FdtTree
  import opened FdtSpec
  import opened FdtRead

  // Trees by path.

  predicate IsTreePath(kids: seq<Tree>, path: seq<nat>)
    decreases |path|
  {
    path != [] && path[0] < |kids| && (|path| == 1 || IsTreePath(kids[path[0]].kids, path[1..]))
  }

  function TreeAt(kids: seq<Tree>, path: seq<nat>): Tree
    requires IsTreePath(kids, path)
    decreases |path|
  {
    if |path| == 1 then kids[path[0]] else TreeAt(kids[path[0]].kids, path[1..])
  }

  function TreeOf(names: seq<byte>, e: Elems): Tree
    requires e.Node?
  {
    Tree(e.name, PropsOf(names, e.body), KidsOf(names, e.body))
  }

  /** Paths in the encoding are paths in the tree, and lead to the same node. */
  lemma {:induction false} PathTree(names: seq<byte>, e: Elems, path: seq<nat>)
    ensures IsPath(e, path) <==> IsTreePath(KidsOf(names, e), path)
    ensures IsPath(e, path) ==> TreeAt(KidsOf(names, e), path) == TreeOf(names, PathNode(e, path))
    decreases e
  {
    if path != [] {
      match e
      case Nil =>
      case Nop(rest) => PathTree(names, rest, path);
      case Prop(_, _, _, rest) => PathTree(names, rest, path);
      case Node(n, _, body, rest) =>
        var kids := KidsOf(names, e);
        assert kids[1..] == KidsOf(names, rest);
        if path[0] > 0 {
          PathTree(names, rest, Down(path));
          assert Down(path)[1..] == path[1..];
        } else {
          PathTree(names, body, path[1..]);
        }
    }
  }

  /** Position of the first child whose name matches. */
  function FirstKid(kids: seq<Tree>, name: seq<byte>): (r: Option<nat>)
    ensures r.Some? ==> r.value < |kids| && Match(kids[r.value].name, name)
    ensures r.Some? ==> forall i | 0 <= i < r.value :: !Match(kids[i].name, name)
    ensures r.None? ==> forall i | 0 <= i < |kids| :: !Match(kids[i].name, name)
  {
    if kids == [] then None
    else if Match(kids[0].name, name) then Some(0)
    else
      match FirstKid(kids[1..], name)
      case None => (assert forall i | 0 < i < |kids| :: kids[i] == kids[1..][i - 1]; None)
      case Some(k) => (assert forall i | 0 < i < |kids| :: kids[i] == kids[1..][i - 1]; Some(k + 1))
  }

  lemma {:induction false} FirstChildPath(names: seq<byte>, e: Elems, off: nat, name: seq<byte>)
    ensures match FirstKid(KidsOf(names, e), name)
            case None => FirstChild(e, off, name) == None
            case Some(k) => IsPath(e, [k]) && FirstChild(e, off, name) == Some(PathOff(e, off, [k]))
    decreases e
  {
    match e
    case Nil =>
    case Nop(rest) => FirstChildPath(names, rest, off + 4, name);
    case Prop(_, data, _, rest) => FirstChildPath(names, rest, PropNext(off, data), name);
    case Node(n, _, body, rest) =>
      var kids := KidsOf(names, e);
      assert kids[1..] == KidsOf(names, rest);
      FirstChildPath(names, rest, NodeNext(off, n, body), name);
      match FirstKid(kids[1..], name) {
        case None =>
        case Some(k) => assert Down([k + 1]) == [k];
      }
  }

  /** The offset of a child, from the offset of its parent. */
  lemma {:induction false} PathAppend(e: Elems, off: nat, path: seq<nat>, k: nat)
    requires IsPath(e, path) && IsPath(PathNode(e, path).body, [k])
    ensures IsPath(e, path + [k])
    ensures var n := PathNode(e, path);
            PathOff(e, off, path + [k]) == PathOff(n.body, NodeInner(PathOff(e, off, path), n.name), [k])
    decreases e
  {
    match e
    case Nop(rest) => PathAppend(rest, off + 4, path, k);
    case Prop(_, data, _, rest) => PathAppend(rest, PropNext(off, data), path, k);
    case Node(n, _, body, rest) =>
      if path[0] > 0 {
        PathAppend(rest, NodeNext(off, n, body), Down(path), k);
        assert Down(path) + [k] == Down(path + [k]);
      } else if |path| > 1 {
        PathAppend(body, NodeInner(off, n), path[1..], k);
        assert path[1..] + [k] == (path + [k])[1..];
      } else {
        assert (path + [k])[1..] == [k];
      }
  }

  // What it means for a buffer to serialise a tree.

  /** The structure block encodes `e`, which has one root node, then an end token. */
  ghost predicate Represents(f: Fdt, e: Elems) {
    && Sits(f, 0, e) && NoProps(e) && PropsFirst(e) && |KidsOf(Names(f), e)| == 1
    && Holds(f, 4 * Size(e), BE32(FDT_END)) && 4 * Size(e) + 4 <= f.len
  }

  ghost predicate Serialises(f: Fdt, tree: Tree) {
    exists e :: Represents(f, e) && KidsOf(Names(f), e) == [tree]
  }

  lemma RepresentsReads(f: Fdt, e: Elems, path: seq<nat>)
    requires Represents(f, e) && IsPath(e, path)
    ensures Reads(TokensOf(f), Names(f), 0, e)
    ensures Reads(TokensOf(f), Names(f), PathOff(e, 0, path), PathNode(e, path))
  {
    SitsReads(f, 0, e);
    ReadsPath(TokensOf(f), Names(f), 0, e, path);
  }

  /** fdt_child() returns exactly the first matching child of the node, or "not found". */
  lemma ChildCorrect(f: Fdt, e: Elems, path: seq<nat>, name: seq<byte>)
    requires Represents(f, e) && IsTreePath(KidsOf(Names(f), e), path)
    ensures IsPath(e, path)
    ensures match FirstKid(TreeAt(KidsOf(Names(f), e), path).kids, name)
            case None => Child(TokensOf(f), f.len, PathOff(e, 0, path), name) == Err(ENOENT)
            case Some(k) =>
              && IsPath(e, path + [k])
              && Child(TokensOf(f), f.len, PathOff(e, 0, path), name) == Ok(PathOff(e, 0, path + [k]))
  {
    PathTree(Names(f), e, path);
    RepresentsReads(f, e, path);
    var n, off := PathNode(e, path), PathOff(e, 0, path);
    ChildAt(TokensOf(f), f.len, Names(f), off, n, name);
    FirstChildPath(Names(f), n.body, NodeInner(off, n.name), name);
    match FirstKid(KidsOf(Names(f), n.body), name)
    case None =>
    case Some(k) => PathAppend(e, 0, path, k);
  }

  // Properties.

  /** Position of the first property whose name matches. */
  function FirstEntry(props: seq<Entry>, name: seq<byte>): (r: Option<nat>)
    ensures r.Some? ==> r.value < |props| && Match(props[r.value].name, name)
    ensures r.Some? ==> forall i | 0 <= i < r.value :: !Match(props[i].name, name)
    ensures r.None? ==> forall i | 0 <= i < |props| :: !Match(props[i].name, name)
  {
    if props == [] then None
    else if Match(props[0].name, name) then Some(0)
    else
      match FirstEntry(props[1..], name)
      case None => (assert forall i | 0 < i < |props| :: props[i] == props[1..][i - 1]; None)
      case Some(k) => (assert forall i | 0 < i < |props| :: props[i] == props[1..][i - 1]; Some(k + 1))
  }

  lemma {:induction false} NoPropsEmpty(names: seq<byte>, e: Elems)
    requires NoProps(e)
    ensures PropsOf(names, e) == []
  {
    match e
    case Nil =>
    case Nop(rest) => NoPropsEmpty(names, rest);
    case Node(_, _, _, rest) => NoPropsEmpty(names, rest);
  }

  /** The element list that starts with the first matching property. */
  function FirstPropElem(names: seq<byte>, e: Elems, name: seq<byte>): (r: Option<Elems>)
    ensures r.Some? ==> r.value.Prop?
    decreases e
  {
    match e
    case Nil => None
    case Nop(rest) => FirstPropElem(names, rest, name)
    case Prop(nameOff, _, _, rest) =>
      if Match(CStr(names, nameOff), name) then Some(e) else FirstPropElem(names, rest, name)
    case Node(_, _, _, _) => None
  }

  /** The property element found is that of the first matching property. */
  lemma {:induction false} FirstPropEntry(names: seq<byte>, e: Elems, off: nat, name: seq<byte>)
    requires PropsFirst(e)
    ensures FirstProp(names, e, off, name).Some? <==> FirstPropElem(names, e, name).Some?
    ensures match FirstEntry(PropsOf(names, e), name)
            case None => FirstPropElem(names, e, name) == None
            case Some(k) =>
              && FirstPropElem(names, e, name).Some?
              && var p := FirstPropElem(names, e, name).value;
                 PropsOf(names, e)[k] == Entry(CStr(names, p.nameOff), p.data)
    decreases e
  {
    match e
    case Nil =>
    case Nop(rest) => FirstPropEntry(names, rest, off + 4, name);
    case Prop(nameOff, data, pad, rest) =>
      assert PropsOf(names, e)[1..] == PropsOf(names, rest);
      FirstPropEntry(names, rest, PropNext(off, data), name);
    case Node(_, _, _, rest) => NoPropsEmpty(names, rest);
  }

  lemma {:induction false} FirstPropSits(f: Fdt, e: Elems, off: nat, name: seq<byte>)
    requires Sits(f, off, e) && FirstPropElem(Names(f), e, name).Some?
    ensures FirstProp(Names(f), e, off, name).Some?
    ensures Sits(f, FirstProp(Names(f), e, off, name).value, FirstPropElem(Names(f), e, name).value)
    decreases e
  {
    match e
    case Nop(rest) =>
      SitsNop(f, off, e);
      FirstPropSits(f, rest, off + 4, name);
    case Prop(nameOff, data, pad, rest) =>
      if !Match(CStr(Names(f), nameOff), name) {
        SitsProp(f, off, e, PropNext(off, data));
        FirstPropSits(f, rest, PropNext(off, data), name);
      }
  }

  /** The bytes of the node at a path. */
  lemma {:induction false} SitsPath(f: Fdt, off: nat, e: Elems, path: seq<nat>)
    requires Sits(f, off, e) && PropsFirst(e) && IsPath(e, path)
    ensures Sits(f, PathOff(e, off, path), PathNode(e, path)) && PropsFirst(PathNode(e, path))
    decreases e
  {
    match e
    case Nop(rest) =>
      SitsNop(f, off, e);
      SitsPath(f, off + 4, rest, path);
    case Prop(nameOff, data, pad, rest) =>
      SitsProp(f, off, e, PropNext(off, data));
      SitsPath(f, PropNext(off, data), rest, path);
    case Node(n, pad, body, rest) =>
      var inner, end, next := NodeInner(off, n), NodeEnd(off, n, body), NodeNext(off, n, body);
      SitsNode(f, off, e, inner, end, next);
      if path[0] > 0 {
        SitsPath(f, next, rest, Down(path));
      } else if |path| > 1 {
        SitsPath(f, inner, body, path[1..]);
      }
  }

  lemma PropertyFound(f: Fdt, off: nat, n: Elems, name: seq<byte>)
    requires Sits(f, off, n) && n.Node? && PropsFirst(n)
    ensures var props := PropsOf(Names(f), n.body);
            var r := Property(TokensOf(f), f.len, off, name);
            match FirstEntry(props, name)
            case None => r == Err(ENOENT)
            case Some(k) => r.Ok? && IsProperty(f, r.value, props[k])
  {
    var inner, end, next := NodeInner(off, n.name), NodeEnd(off, n.name, n.body), NodeNext(off, n.name, n.body);
    SitsReads(f, off, n);
    SitsNode(f, off, n, inner, end, next);
    PropertyAt(TokensOf(f), f.len, Names(f), off, n, name);
    FirstPropEntry(Names(f), n.body, inner, name);
    if FirstPropElem(Names(f), n.body, name).Some? {
      FirstPropSits(f, n.body, inner, name);
      PropertyRead(f, FirstProp(Names(f), n.body, inner, name).value, FirstPropElem(Names(f), n.body, name).value);
    }
  }

  /** The token describes the given property: its name, and where its data lies. */
  predicate IsProperty(f: Fdt, d: Desc, p: Entry) {
    d.name == Some(p.name) && d.len == |p.data| && d.data.Some? && Holds(f, d.data.value, p.data)
  }

  lemma PropertyRead(f: Fdt, o: nat, p: Elems)
    requires Sits(f, o, p) && p.Prop?
    ensures o in TokensOf(f) && IsProperty(f, TokensOf(f)[o], Entry(CStr(Names(f), p.nameOff), p.data))
  {
    SitsProp(f, o, p, PropNext(o, p.data));
    PropertyToken(f, o, p.nameOff, p.data, p.pad, PropNext(o, p.data));
  }

  /** fdt_property() returns the first matching property, with its name and its data; or "not found". */
  lemma PropertyCorrect(f: Fdt, e: Elems, path: seq<nat>, name: seq<byte>)
    requires Represents(f, e) && IsTreePath(KidsOf(Names(f), e), path)
    ensures IsPath(e, path)
    ensures var props := TreeAt(KidsOf(Names(f), e), path).props;
            var r := Property(TokensOf(f), f.len, PathOff(e, 0, path), name);
            match FirstEntry(props, name)
            case None => r == Err(ENOENT)
            case Some(k) => r.Ok? && IsProperty(f, r.value, props[k])
  {
    PathTree(Names(f), e, path);
    SitsPath(f, 0, e, path);
    PropertyFound(f, PathOff(e, 0, path), PathNode(e, path), name);
  }

  /** fdt_end() returns the closing token of the node, where a new child is to be inserted. */
  lemma EndCorrect(f: Fdt, e: Elems, path: seq<nat>)
    requires Represents(f, e) && IsTreePath(KidsOf(Names(f), e), path)
    ensures IsPath(e, path)
    ensures var n, off := PathNode(e, path), PathOff(e, 0, path);
            && End(TokensOf(f), f.len, off) == Ok(NodeEnd(off, n.name, n.body))
            && Holds(f, NodeEnd(off, n.name, n.body), BE32(FDT_END_NODE))
  {
    PathTree(Names(f), e, path);
    RepresentsReads(f, e, path);
    SitsPath(f, 0, e, path);
    var n, off := PathNode(e, path), PathOff(e, 0, path);
    EndAt(TokensOf(f), f.len, Names(f), off, n);
    SitsNode(f, off, n, NodeInner(off, n.name), NodeEnd(off, n.name, n.body), NodeNext(off, n.name, n.body));
  }

  // Parents.

  lemma {:induction false} EnterTop(t: Tokens, len: nat, names: seq<byte>, off: nat, e: Elems)
    requires Advances(t, len) && Reads(t, names, off, e) && NoProps(e) && IsPath(e, [0])
    ensures PathOff(e, off, [0]) in t
    ensures Enter(t, len, off) == Ok(t[PathOff(e, off, [0])])
    decreases e
  {
    match e
    case Nop(rest) => EnterTop(t, len, names, off + 4, rest);
    case Node(_, _, _, _) =>
  }

  /** Paths below the root, seen from inside the root. */
  lemma {:induction false} RootPath(e: Elems, off: nat, path: seq<nat>)
    requires IsPath(e, path) && path[0] == 0
    ensures IsPath(e, [0])
    ensures |path| > 1 ==>
              var n := PathNode(e, [0]);
              && IsPath(n.body, path[1..])
              && PathOff(e, off, path) == PathOff(n.body, NodeInner(PathOff(e, off, [0]), n.name), path[1..])
    decreases e
  {
    match e
    case Nop(rest) => RootPath(rest, off + 4, path);
    case Prop(_, data, _, rest) => RootPath(rest, PropNext(off, data), path);
    case Node(n, _, body, rest) =>
  }

  /** fdt_parent() returns the true parent of every node but the root. */
  lemma ParentCorrect(f: Fdt, e: Elems, path: seq<nat>)
    requires Represents(f, e) && IsTreePath(KidsOf(Names(f), e), path) && |path| > 1
    ensures IsPath(e, path) && IsPath(e, Up(path))
    ensures Parent(TokensOf(f), f.len, PathOff(e, 0, path)) == Ok(PathOff(e, 0, Up(path)))
  {
    var t, len, names := TokensOf(f), f.len, Names(f);
    PathTree(names, e, path);
    UpIsPath(e, path);
    RootPath(e, 0, path);
    RootPath(e, 0, Up(path));
    RepresentsReads(f, e, [0]);
    EnterTop(t, len, names, 0, e);
    var root, off := PathNode(e, [0]), PathOff(e, 0, [0]);
    var inner, target := NodeInner(off, root.name), PathOff(e, 0, path);
    DepthFinds(t, len, names, inner, root.body, path[1..], 0, target, |path| - 2);
    ParentFinds(t, len, names, inner, root.body, path[1..], 0, |path| - 3, target, off);
    if |path| > 2 {
      assert Up(path[1..]) == Up(path)[1..];
    } else {
      assert Up(path) == [0];
    }
  }

  // Paths by name.

  /** The non-empty parts of a path between slashes, the first of them begun with `part`. */
  function Split(path: seq<byte>, part: seq<byte>): seq<seq<byte>> {
    var done := if part == [] then [] else [part];
    if path == [] then done
    else if path[0] == SLASH then done + Split(path[1..], [])
    else Split(path[1..], part + [path[0]])
  }

  /** No node name contains a slash. */
  predicate NoSlashes(kids: seq<Tree>) {
    forall i | 0 <= i < |kids| :: SLASH !in kids[i].name && NoSlashes(kids[i].kids)
  }

  /** Follow components down the tree, taking the first child that matches each. */
  function Lookup(kids: seq<Tree>, path: seq<nat>, components: seq<seq<byte>>): Option<seq<nat>>
    requires IsTreePath(kids, path)
    decreases |components|
  {
    if components == [] then Some(path)
    else
      var t := TreeAt(kids, path);
      match FirstKid(t.kids, components[0])
      case None => None
      case Some(k) =>
        TreePathAppend(kids, path, k);
        Lookup(kids, path + [k], components[1..])
  }

  lemma {:induction false} TreePathAppend(kids: seq<Tree>, path: seq<nat>, k: nat)
    requires IsTreePath(kids, path) && k < |TreeAt(kids, path).kids|
    ensures IsTreePath(kids, path + [k]) && TreeAt(kids, path + [k]) == TreeAt(kids, path).kids[k]
    decreases |path|
  {
    if |path| == 1 {
      assert (path + [k])[1..] == [k];
    } else {
      TreePathAppend(kids[path[0]].kids, path[1..], k);
      assert (path + [k])[1..] == path[1..] + [k];
    }
  }

  lemma {:induction false} NoSlashesAt(kids: seq<Tree>, path: seq<nat>)
    requires NoSlashes(kids) && IsTreePath(kids, path)
    ensures NoSlashes(TreeAt(kids, path).kids)
    decreases |path|
  {
    if |path| > 1 {
      NoSlashesAt(kids[path[0]].kids, path[1..]);
    }
  }

  lemma LongerHasSlash(name: seq<byte>, component: seq<byte>, rest: seq<byte>)
    requires name <= component + rest && |component| < |name| && (rest == [] || rest[0] == SLASH)
    ensures SLASH in name
  {
    assert name[|component|] == (component + rest)[|component|];
  }

  /** A slash-free name matches a path exactly when it matches the first component. */
  lemma MatchComponent(name: seq<byte>, component: seq<byte>, rest: seq<byte>)
    requires SLASH !in name && (rest == [] || rest[0] == SLASH)
    ensures Match(name, component + rest) <==> Match(name, component)
  {
    var s := component + rest;
    if |name| <= |component| {
      assert component[..|name|] == s[..|name|];
    } else if name <= s {
      LongerHasSlash(name, component, rest);
    }
  }

  lemma FirstKidComponent(kids: seq<Tree>, component: seq<byte>, rest: seq<byte>)
    requires forall i | 0 <= i < |kids| :: SLASH !in kids[i].name
    requires rest == [] || rest[0] == SLASH
    ensures FirstKid(kids, component + rest) == FirstKid(kids, component)
  {
    forall i | 0 <= i < |kids|
      ensures Match(kids[i].name, component + rest) <==> Match(kids[i].name, component)
    {
      MatchComponent(kids[i].name, component, rest);
    }
  }

  /** A component of permitted characters leads to the first child of exactly that name. */
  lemma PlainComponent(kids: seq<Tree>, component: seq<byte>, k: nat)
    requires (forall i | 0 <= i < |component| :: Permitted(component[i])) && k < |kids|
    ensures FirstKid(kids, component) == Some(k) <==>
            kids[k].name == component && forall i | 0 <= i < k :: kids[i].name != component
  {
  }

  /** What is left of a path after its first component. */
  lemma {:induction false} TakeComponent(path: seq<byte>) returns (c: seq<byte>)
    ensures path == c + FromSlash(path) && SLASH !in c
    ensures FromSlash(path) == [] || FromSlash(path)[0] == SLASH
  {
    if path == [] || path[0] == SLASH {
      c := [];
    } else {
      var d := TakeComponent(path[1..]);
      c := [path[0]] + d;
    }
  }

  lemma {:induction false} SplitSlashes(path: seq<byte>)
    ensures Split(path, []) == Split(SkipSlashes(path), [])
  {
    if path != [] && path[0] == SLASH {
      SplitSlashes(path[1..]);
    }
  }

  lemma {:induction false} SplitComponent(c: seq<byte>, rest: seq<byte>, part: seq<byte>)
    requires SLASH !in c && part + c != [] && (rest == [] || rest[0] == SLASH)
    ensures Split(c + rest, part) == [part + c] + Split(rest, [])
  {
    if c == [] {
      assert c + rest == rest && part + c == part;
    } else {
      assert c[0] in c;
      assert (c + rest)[1..] == c[1..] + rest && (part + [c[0]]) + c[1..] == part + c;
      SplitComponent(c[1..], rest, part + [c[0]]);
    }
  }

  /** A path with something other than slashes has a first component, and then those of what is left. */
  lemma SplitFirst(path: seq<byte>, s: seq<byte>) returns (c: seq<byte>)
    requires s == SkipSlashes(path) && s != []
    ensures s == c + FromSlash(s) && (FromSlash(s) == [] || FromSlash(s)[0] == SLASH)
    ensures Split(path, []) == [c] + Split(FromSlash(s), [])
  {
    SplitSlashes(path);
    SkipsAll(path);
    c := TakeComponent(s);
    SplitComponent(c, FromSlash(s), []);
    assert [] + c == c;
  }

  lemma {:induction false} SkipsAll(path: seq<byte>)
    ensures SkipSlashes(path) == [] || SkipSlashes(path)[0] != SLASH
  {
    if path != [] && path[0] == SLASH {
      SkipsAll(path[1..]);
    }
  }

  lemma NoComponents(path: seq<byte>)
    ensures SkipSlashes(path) == [] <==> Split(path, []) == []
  {
    SplitSlashes(path);
    if SkipSlashes(path) != [] {
      var c := SplitFirst(path, SkipSlashes(path));
    }
  }

  /** The loop of fdt_path(), from the node at `at`. */
  lemma {:induction false} PathBelow(f: Fdt, e: Elems, at: seq<nat>, path: seq<byte>)
    requires Represents(f, e) && IsTreePath(KidsOf(Names(f), e), at) && NoSlashes(KidsOf(Names(f), e))
    ensures IsPath(e, at)
    ensures match Lookup(KidsOf(Names(f), e), at, Split(path, []))
            case None => PathFrom(TokensOf(f), f.len, PathOff(e, 0, at), path) == Err(ENOENT)
            case Some(q) =>
              IsPath(e, q) && PathFrom(TokensOf(f), f.len, PathOff(e, 0, at), path) == Ok(PathOff(e, 0, q))
    decreases |path|
  {
    PathTree(Names(f), e, at);
    NoComponents(path);
    var s := SkipSlashes(path);
    if s != [] {
      var kids, rest := KidsOf(Names(f), e), FromSlash(s);
      SkipsAll(path);
      var c := SplitFirst(path, s);
      NoSlashesAt(kids, at);
      FirstKidComponent(TreeAt(kids, at).kids, c, rest);
      ChildCorrect(f, e, at, s);
      match FirstKid(TreeAt(kids, at).kids, c) {
        case None =>
        case Some(k) =>
          TreePathAppend(kids, at, k);
          PathBelow(f, e, at + [k], rest);
      }
    }
  }

  /** Offset zero stands for the root, even if NOPs come before it. */
  lemma TopIsRoot(f: Fdt, e: Elems, name: seq<byte>)
    requires Represents(f, e)
    ensures IsTreePath(KidsOf(Names(f), e), [0]) && IsPath(e, [0])
    ensures Child(TokensOf(f), f.len, 0, name) == Child(TokensOf(f), f.len, PathOff(e, 0, [0]), name)
  {
    PathTree(Names(f), e, [0]);
    RepresentsReads(f, e, [0]);
    EnterTop(TokensOf(f), f.len, Names(f), 0, e);
  }

  /**
    fdt_path() resolves every path to the node that its components lead to; a path of no
    components leads to offset zero.
   */
  lemma PathCorrect(f: Fdt, e: Elems, path: seq<byte>)
    requires Represents(f, e) && NoSlashes(KidsOf(Names(f), e))
    ensures IsTreePath(KidsOf(Names(f), e), [0])
    ensures match Lookup(KidsOf(Names(f), e), [0], Split(path, []))
            case None => PathFrom(TokensOf(f), f.len, 0, path) == Err(ENOENT)
            case Some(q) =>
              && IsPath(e, q)
              && PathFrom(TokensOf(f), f.len, 0, path) == Ok(if Split(path, []) == [] then 0 else PathOff(e, 0, q))
  {
    TopIsRoot(f, e, SkipSlashes(path));
    PathBelow(f, e, [0], path);
    NoComponents(path);
  }

  // A buffer serialises at most one tree.

  /** No element starts here: there is no token, or the end of a node. */
  predicate Stops(t: Tokens, off: nat) {
    off !in t || t[off].depth < 0
  }

  /** The first element of an encoding is determined by the first token. */
  lemma SameHead(t: Tokens, names: seq<byte>, off: nat, e1: Elems, e2: Elems)
    requires Reads(t, names, off, e1) && Reads(t, names, off, e2)
    requires (e1.Nil? || e2.Nil?) ==> Stops(t, off)
    ensures (e1.Nil? <==> e2.Nil?) && (e1.Nop? <==> e2.Nop?) && (e1.Prop? <==> e2.Prop?)
    ensures e1.Prop? ==> |e1.data| == |e2.data| && CStr(names, e1.nameOff) == CStr(names, e2.nameOff)
    ensures e1.Node? ==> e1.name == e2.name
  {
  }

  /** The data of every property lies in the buffer after its token. */
  predicate DataAt(f: Fdt, off: nat, e: Elems)
    decreases e
  {
    match e
    case Nil => true
    case Nop(rest) => DataAt(f, off + 4, rest)
    case Prop(_, data, _, rest) => Holds(f, off + 12, data) && DataAt(f, PropNext(off, data), rest)
    case Node(n, _, body, rest) => DataAt(f, NodeInner(off, n), body) && DataAt(f, NodeNext(off, n, body), rest)
  }

  lemma {:induction false} SitsData(f: Fdt, off: nat, e: Elems)
    requires Sits(f, off, e)
    ensures DataAt(f, off, e)
    decreases e
  {
    match e
    case Nil =>
    case Nop(rest) =>
      SitsNop(f, off, e);
      SitsData(f, off + 4, rest);
    case Prop(nameOff, data, pad, rest) =>
      SitsProp(f, off, e, PropNext(off, data));
      SitsData(f, PropNext(off, data), rest);
    case Node(n, pad, body, rest) =>
      var inner, end, next := NodeInner(off, n), NodeEnd(off, n, body), NodeNext(off, n, body);
      SitsNode(f, off, e, inner, end, next);
      SitsData(f, inner, body);
      SitsData(f, next, rest);
  }

  /** Two encodings read from the same tokens and data, up to where no element starts, stand for the same tree. */
  lemma {:induction false} SameTokensSameTree(
    t: Tokens, f: Fdt, names: seq<byte>, off: nat, e1: Elems, e2: Elems, to1: nat, to2: nat)
    requires Reads(t, names, off, e1) && Reads(t, names, off, e2) && DataAt(f, off, e1) && DataAt(f, off, e2)
    requires to1 == off + 4 * Size(e1) && to2 == off + 4 * Size(e2) && Stops(t, to1) && Stops(t, to2)
    ensures to1 == to2
    ensures PropsOf(names, e1) == PropsOf(names, e2) && KidsOf(names, e1) == KidsOf(names, e2)
    decreases e1
  {
    SameHead(t, names, off, e1, e2);
    match e1
    case Nil =>
    case Nop(rest) => SameTokensSameTree(t, f, names, off + 4, rest, e2.rest, to1, to2);
    case Prop(nameOff, data, pad, rest) =>
      assert data == e2.data;
      SameTokensSameTree(t, f, names, PropNext(off, data), rest, e2.rest, to1, to2);
    case Node(n, pad, body, rest) =>
      var inner := NodeInner(off, n);
      SameTokensSameTree(t, f, names, inner, body, e2.body, NodeEnd(off, n, body), NodeEnd(off, n, e2.body));
      assert NodeNext(off, n, body) == NodeNext(off, n, e2.body);
      SameTokensSameTree(t, f, names, NodeNext(off, n, body), rest, e2.rest, to1, to2);
  }

  lemma EndStops(f: Fdt, off: nat)
    requires Pos(f, off) && Holds(f, off, BE32(FDT_END))
    ensures Stops(TokensOf(f), off)
  {
    TokensFromAt(f, 0, off);
    if off + 4 <= f.len {
      WordOfBE32(f.raw, f.structure + off, FDT_END);
    }
  }

  lemma RepresentsStops(f: Fdt, e: Elems, end: nat)
    requires Represents(f, e) && end == 4 * Size(e)
    ensures Stops(TokensOf(f), end)
  {
    PosPlus(f, 0, Size(e));
    EndStops(f, end);
  }

  /** The tree that a buffer serialises is unique. */
  lemma SerialisesUnique(f: Fdt, tree1: Tree, tree2: Tree)
    requires Serialises(f, tree1) && Serialises(f, tree2)
    ensures tree1 == tree2
  {
    var e1 :| Represents(f, e1) && KidsOf(Names(f), e1) == [tree1];
    var e2 :| Represents(f, e2) && KidsOf(Names(f), e2) == [tree2];
    RepresentsStops(f, e1, 4 * Size(e1));
    RepresentsStops(f, e2, 4 * Size(e2));
    SitsReads(f, 0, e1);
    SitsReads(f, 0, e2);
    SitsData(f, 0, e1);
    SitsData(f, 0, e2);
    SameTokensSameTree(TokensOf(f), f, Names(f), 0, e1, e2, 4 * Size(e1), 4 * Size(e2));
    assert [tree1][0] == [tree2][0];
  }
}
