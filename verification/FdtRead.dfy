/** The readers on a buffer that serialises a tree: each returns exactly what the tree says. */
module FdtRead {
  import opened Basics
  import opened FdtFormat
  import opened FdtWalk
  import opened FdtTree
  import opened FdtSpec

  /** The same path, seen from after the first node. */
  function Down(path: seq<nat>): (r: seq<nat>)
    requires path != [] && path[0] > 0
    ensures |r| == |path|
  {
    [path[0] - 1] + path[1..]
  }

  /** A path names a node by its position among its siblings, level by level. */
  predicate IsPath(e: Elems, path: seq<nat>) {
    path != [] &&
    match e
    case Nil => false
    case Nop(rest) => IsPath(rest, path)
    case Prop(_, _, _, rest) => IsPath(rest, path)
    case Node(_, _, body, rest) =>
      if path[0] > 0 then IsPath(rest, Down(path)) else |path| == 1 || IsPath(body, path[1..])
  }

  /** Offset of the node at `path`, if `e` starts at `off`. */
  function PathOff(e: Elems, off: nat, path: seq<nat>): nat
    requires IsPath(e, path)
    decreases e
  {
    match e
    case Nop(rest) => PathOff(rest, off + 4, path)
    case Prop(_, data, _, rest) => PathOff(rest, PropNext(off, data), path)
    case Node(n, _, body, rest) =>
      if path[0] > 0 then PathOff(rest, NodeNext(off, n, body), Down(path))
      else if |path| == 1 then off
      else PathOff(body, NodeInner(off, n), path[1..])
  }

  /** The element list that starts with the node at `path`. */
  function PathNode(e: Elems, path: seq<nat>): (r: Elems)
    requires IsPath(e, path)
    ensures r.Node?
    decreases e
  {
    match e
    case Nop(rest) => PathNode(rest, path)
    case Prop(_, data, _, rest) => PathNode(rest, path)
    case Node(n, _, body, rest) =>
      if path[0] > 0 then PathNode(rest, Down(path))
      else if |path| == 1 then e
      else PathNode(body, path[1..])
  }

  /** The path of the parent. */
  function Up(path: seq<nat>): seq<nat>
    requires path != []
  {
    path[..|path| - 1]
  }

  lemma {:induction false} UpIsPath(e: Elems, path: seq<nat>)
    requires IsPath(e, path) && |path| > 1
    ensures IsPath(e, Up(path))
    decreases e
  {
    match e
    case Nop(rest) => UpIsPath(rest, path);
    case Prop(_, data, _, rest) => UpIsPath(rest, path);
    case Node(n, _, body, rest) =>
      if path[0] > 0 {
        UpIsPath(rest, Down(path));
        assert Up(Down(path)) == Down(Up(path));
      } else if |path| > 2 {
        UpIsPath(body, path[1..]);
        assert Up(path[1..]) == Up(path)[1..];
      }
  }

  lemma {:induction false} PathInside(e: Elems, off: nat, path: seq<nat>)
    requires IsPath(e, path)
    ensures off <= PathOff(e, off, path) < off + 4 * Size(e)
    decreases e
  {
    match e
    case Nop(rest) => PathInside(rest, off + 4, path);
    case Prop(_, data, _, rest) => PathInside(rest, PropNext(off, data), path);
    case Node(n, _, body, rest) =>
      if path[0] > 0 {
        PathInside(rest, NodeNext(off, n, body), Down(path));
      } else if |path| > 1 {
        PathInside(body, NodeInner(off, n), path[1..]);
      }
  }

  lemma {:induction false} ReadsPath(t: Tokens, names: seq<byte>, off: nat, e: Elems, path: seq<nat>)
    requires Reads(t, names, off, e) && IsPath(e, path)
    ensures Reads(t, names, PathOff(e, off, path), PathNode(e, path))
    decreases e
  {
    match e
    case Nop(rest) => ReadsPath(t, names, off + 4, rest, path);
    case Prop(_, data, _, rest) => ReadsPath(t, names, PropNext(off, data), rest, path);
    case Node(n, _, body, rest) =>
      if path[0] > 0 {
        ReadsPath(t, names, NodeNext(off, n, body), rest, Down(path));
      } else if |path| > 1 {
        ReadsPath(t, names, NodeInner(off, n), body, path[1..]);
      }
  }

  // The readers at a node.

  lemma ChildAt(t: Tokens, len: nat, names: seq<byte>, off: nat, e: Elems, name: seq<byte>)
    requires Advances(t, len) && e.Node? && Reads(t, names, off, e)
    ensures Child(t, len, off, name) ==
            match FirstChild(e.body, NodeInner(off, e.name), name)
            case Some(child) => Ok(child)
            case None => Err(ENOENT)
  {
    var inner, end := NodeInner(off, e.name), NodeEnd(off, e.name, e.body);
    ChildScans(t, len, names, inner, e.body, end, name);
  }

  /** fdt_end() returns the closing token. */
  lemma EndAt(t: Tokens, len: nat, names: seq<byte>, off: nat, e: Elems)
    requires Advances(t, len) && e.Node? && Reads(t, names, off, e)
    ensures End(t, len, off) == Ok(NodeEnd(off, e.name, e.body))
  {
    var inner, end := NodeInner(off, e.name), NodeEnd(off, e.name, e.body);
    EndSkips(t, len, names, inner, e.body, end, 0);
  }

  lemma PropertyAt(t: Tokens, len: nat, names: seq<byte>, off: nat, e: Elems, name: seq<byte>)
    requires Advances(t, len) && e.Node? && Reads(t, names, off, e)
    ensures match FirstProp(names, e.body, NodeInner(off, e.name), name)
            case Some(o) => o in t && Property(t, len, off, name) == Ok(t[o])
            case None => Property(t, len, off, name) == Err(ENOENT)
  {
    var inner, end := NodeInner(off, e.name), NodeEnd(off, e.name, e.body);
    PropertyScans(t, len, names, inner, e.body, end, name);
  }

  // Depth and parent.

  lemma DepthPast(t: Tokens, len: nat, off: nat, depth: nat, target: nat, next: nat, depth': nat)
    requires Advances(t, len) && off in t && target != off && t[off].next == next && depth + t[off].depth == depth'
    ensures DepthFrom(t, len, off, depth, target) == DepthFrom(t, len, next, depth', target)
  {
  }

  lemma DepthPastNode(t: Tokens, len: nat, names: seq<byte>, off: nat, e: Elems, next: nat, depth: nat, target: nat)
    requires Advances(t, len) && e.Node? && Reads(t, names, off, e)
    requires next == NodeNext(off, e.name, e.body) <= target
    ensures DepthFrom(t, len, off, depth, target) == DepthFrom(t, len, next, depth, target)
  {
    var inner, end := NodeInner(off, e.name), NodeEnd(off, e.name, e.body);
    DepthSkips(t, len, names, inner, e.body, end, depth + 1, target);
    DepthNode(t, len, off, e.name, inner, end, next, depth, target);
  }

  lemma {:induction false} DepthFinds(t: Tokens, len: nat, names: seq<byte>, off: nat, e: Elems, path: seq<nat>, depth: nat, target: nat, found: nat)
    requires Advances(t, len) && Reads(t, names, off, e) && IsPath(e, path) && target == PathOff(e, off, path)
    requires found == depth + |path| - 1
    ensures DepthFrom(t, len, off, depth, target) == Ok(found)
    decreases e
  {
    match e
    case Nop(rest) =>
      PathInside(rest, off + 4, path);
      DepthPast(t, len, off, depth, target, off + 4, depth);
      DepthFinds(t, len, names, off + 4, rest, path, depth, target, found);
    case Prop(_, data, _, rest) =>
      PathInside(rest, PropNext(off, data), path);
      DepthPast(t, len, off, depth, target, PropNext(off, data), depth);
      DepthFinds(t, len, names, PropNext(off, data), rest, path, depth, target, found);
    case Node(n, _, body, rest) =>
      var inner, next := NodeInner(off, n), NodeNext(off, n, body);
      if path[0] > 0 {
        PathInside(rest, next, Down(path));
        DepthPastNode(t, len, names, off, e, next, depth, target);
        DepthFinds(t, len, names, next, rest, Down(path), depth, target, found);
      } else if |path| > 1 {
        PathInside(body, inner, path[1..]);
        DepthPast(t, len, off, depth, target, inner, depth + 1);
        DepthFinds(t, len, names, inner, body, path[1..], depth + 1, target, found);
      }
  }

  /** What fdt_parent() has recorded when it reaches the node at `path`. */
  function ParentOff(e: Elems, off: nat, path: seq<nat>, parent: nat): nat
    requires IsPath(e, path)
  {
    if |path| == 1 then parent
    else
      UpIsPath(e, path);
      PathOff(e, off, Up(path))
  }

  lemma ParentOffDown(e: Elems, off: nat, path: seq<nat>, parent: nat, q: nat)
    requires e.Node? && IsPath(e, path) && path[0] > 0 && (|path| == 1 ==> q == parent)
    ensures ParentOff(e.rest, NodeNext(off, e.name, e.body), Down(path), q) == ParentOff(e, off, path, parent)
  {
    if |path| > 1 {
      UpIsPath(e, path);
      assert Up(Down(path)) == Down(Up(path));
    }
  }

  lemma ParentOffInto(e: Elems, off: nat, path: seq<nat>, parent: nat, p: nat)
    requires e.Node? && IsPath(e, path) && path[0] == 0 && |path| > 1 && (|path| == 2 ==> p == off)
    ensures ParentOff(e.body, NodeInner(off, e.name), path[1..], p) == ParentOff(e, off, path, parent)
  {
    UpIsPath(e, path);
    if |path| > 2 {
      assert Up(path[1..]) == Up(path)[1..];
    }
  }

  lemma {:induction false} ParentFinds(
    t: Tokens, len: nat, names: seq<byte>, off: nat, e: Elems, path: seq<nat>, depth: nat, pdepth: int, target: nat, parent: nat)
    requires Advances(t, len) && Reads(t, names, off, e) && IsPath(e, path) && target == PathOff(e, off, path)
    requires pdepth == depth + |path| - 2
    ensures ParentFrom(t, len, off, depth, pdepth, target, parent) == Ok(ParentOff(e, off, path, parent))
    decreases e
  {
    PathInside(e, off, path);
    match e
    case Nop(rest) =>
      PathInside(rest, off + 4, path);
      ParentFlat(t, len, off, depth, pdepth, target, parent, off + 4);
      ParentFinds(t, len, names, off + 4, rest, path, depth, pdepth, target, parent);
      assert |path| > 1 ==> IsPath(e, Up(path)) by { if |path| > 1 { UpIsPath(e, path); } }
    case Prop(_, data, _, rest) =>
      PathInside(rest, PropNext(off, data), path);
      ParentFlat(t, len, off, depth, pdepth, target, parent, PropNext(off, data));
      ParentFinds(t, len, names, PropNext(off, data), rest, path, depth, pdepth, target, parent);
      assert |path| > 1 ==> IsPath(e, Up(path)) by { if |path| > 1 { UpIsPath(e, path); } }
    case Node(n, _, body, rest) =>
      var inner, end, next := NodeInner(off, n), NodeEnd(off, n, body), NodeNext(off, n, body);
      var p := if depth == pdepth then off else parent;
      if path[0] > 0 {
        var q := LastAt(body, inner, depth + 1, pdepth, p);
        if |path| == 1 {
          LastAtTooDeep(body, inner, depth + 1, pdepth, p);
        }
        PathInside(rest, next, Down(path));
        ParentSkips(t, len, names, inner, body, end, depth + 1, pdepth, target, p);
        ParentNode(t, len, off, n, inner, end, next, depth, pdepth, target, parent, q);
        ParentFinds(t, len, names, next, rest, Down(path), depth, pdepth, target, q);
        ParentOffDown(e, off, path, parent, q);
      } else if |path| > 1 {
        PathInside(body, inner, path[1..]);
        ParentFinds(t, len, names, inner, body, path[1..], depth + 1, pdepth, target, p);
        ParentOffInto(e, off, path, parent, p);
      }
  }
}
