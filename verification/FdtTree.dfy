/** What the walks find in a buffer that encodes a tree, with NOPs anywhere. */
module FdtTree {
  import opened Basics
  import opened FdtFormat
  import opened FdtWalk

  function HeadSize(name: seq<byte>): nat {
    4 + Round4(|name| + 1)
  }

  function PropSize(data: seq<byte>): nat {
    12 + Round4(|data|)
  }

  /** A node as a walk sees it: a beginning at `off`, contents from `inner` to `end`, an end token, then `next`. */
  predicate NodeTokens(t: Tokens, off: nat, name: seq<byte>, inner: nat, end: nat, next: nat) {
    && off in t && t[off] == Desc(off, inner, Some(name), None, 0, 1)
    && end in t && t[end] == Desc(end, next, None, None, 0, -1)
  }

  // Positions of the parts of an element that starts at `off`.

  function PropNext(off: nat, data: seq<byte>): nat {
    off + PropSize(data)
  }

  function NodeInner(off: nat, name: seq<byte>): nat {
    off + HeadSize(name)
  }

  function NodeEnd(off: nat, name: seq<byte>, body: Elems): nat {
    NodeInner(off, name) + 4 * Size(body)
  }

  function NodeNext(off: nat, name: seq<byte>, body: Elems): nat {
    NodeEnd(off, name, body) + 4
  }

  /** The tokens from `off` on are those of `e`, with property names taken from the strings block `names`. */
  predicate Reads(t: Tokens, names: seq<byte>, off: nat, e: Elems)
    decreases e
  {
    match e
    case Nil => true
    case Nop(rest) =>
      && off in t && t[off] == Desc(off, off + 4, None, None, 0, 0)
      && Reads(t, names, off + 4, rest)
    case Prop(nameOff, data, _, rest) =>
      && off in t
      && t[off] == Desc(off, PropNext(off, data), Some(CStr(names, nameOff)), Some(off + 12), |data|, 0)
      && Reads(t, names, PropNext(off, data), rest)
    case Node(n, _, body, rest) =>
      && NodeTokens(t, off, n, NodeInner(off, n), NodeEnd(off, n, body), NodeNext(off, n, body))
      && Reads(t, names, NodeInner(off, n), body)
      && Reads(t, names, NodeNext(off, n, body), rest)
  }

  // Finding a child.

  /** Offset of the first node at this level whose name matches, if `e` starts at `off`. */
  function FirstChild(e: Elems, off: nat, name: seq<byte>): Option<nat> {
    match e
    case Nil => None
    case Nop(rest) => FirstChild(rest, off + 4, name)
    case Prop(_, data, _, rest) => FirstChild(rest, PropNext(off, data), name)
    case Node(n, _, body, rest) =>
      if Match(n, name) then Some(off)
      else FirstChild(rest, NodeNext(off, n, body), name)
  }

  lemma ChildNode(t: Tokens, len: nat, off: nat, n: seq<byte>, inner: nat, end: nat, next: nat, depth: nat, name: seq<byte>)
    requires Advances(t, len) && NodeTokens(t, off, n, inner, end, next) && (depth > 0 || !Match(n, name))
    requires ChildFrom(t, len, inner, depth + 1, name) == ChildFrom(t, len, end, depth + 1, name)
    ensures ChildFrom(t, len, off, depth, name) == ChildFrom(t, len, next, depth, name)
  {
  }

  /** Inside a deeper node, the search for a child passes over everything. */
  lemma {:induction false} ChildSkips(t: Tokens, len: nat, names: seq<byte>, off: nat, e: Elems, to: nat, depth: nat, name: seq<byte>)
    requires Advances(t, len) && Reads(t, names, off, e) && depth > 0 && to == off + 4 * Size(e)
    ensures ChildFrom(t, len, off, depth, name) == ChildFrom(t, len, to, depth, name)
    decreases e
  {
    match e
    case Nil =>
    case Nop(rest) => ChildSkips(t, len, names, off + 4, rest, to, depth, name);
    case Prop(nameOff, data, pad, rest) => ChildSkips(t, len, names, PropNext(off, data), rest, to, depth, name);
    case Node(n, pad, body, rest) =>
      var inner, end, next := NodeInner(off, n), NodeEnd(off, n, body), NodeNext(off, n, body);
      ChildSkips(t, len, names, inner, body, end, depth + 1, name);
      ChildNode(t, len, off, n, inner, end, next, depth, name);
      ChildSkips(t, len, names, next, rest, to, depth, name);
  }

  /** At the node's own level, the search stops at the first matching child. */
  lemma {:induction false} ChildScans(t: Tokens, len: nat, names: seq<byte>, off: nat, e: Elems, to: nat, name: seq<byte>)
    requires Advances(t, len) && Reads(t, names, off, e) && to == off + 4 * Size(e)
    ensures ChildFrom(t, len, off, 0, name) ==
            match FirstChild(e, off, name)
            case Some(child) => Ok(child)
            case None => ChildFrom(t, len, to, 0, name)
    decreases e
  {
    match e
    case Nil =>
    case Nop(rest) => ChildScans(t, len, names, off + 4, rest, to, name);
    case Prop(nameOff, data, pad, rest) => ChildScans(t, len, names, PropNext(off, data), rest, to, name);
    case Node(n, pad, body, rest) =>
      var inner, end, next := NodeInner(off, n), NodeEnd(off, n, body), NodeNext(off, n, body);
      if !Match(n, name) {
        ChildSkips(t, len, names, inner, body, end, 1, name);
        ChildNode(t, len, off, n, inner, end, next, 0, name);
        ChildScans(t, len, names, next, rest, to, name);
      }
  }

  // Finding the end.

  lemma EndNode(t: Tokens, len: nat, off: nat, n: seq<byte>, inner: nat, end: nat, next: nat, depth: nat)
    requires Advances(t, len) && NodeTokens(t, off, n, inner, end, next)
    requires EndFrom(t, len, inner, depth + 1) == EndFrom(t, len, end, depth + 1)
    ensures EndFrom(t, len, off, depth) == EndFrom(t, len, next, depth)
  {
  }

  lemma {:induction false} EndSkips(t: Tokens, len: nat, names: seq<byte>, off: nat, e: Elems, to: nat, depth: nat)
    requires Advances(t, len) && Reads(t, names, off, e) && to == off + 4 * Size(e)
    ensures EndFrom(t, len, off, depth) == EndFrom(t, len, to, depth)
    decreases e
  {
    match e
    case Nil =>
    case Nop(rest) => EndSkips(t, len, names, off + 4, rest, to, depth);
    case Prop(nameOff, data, pad, rest) => EndSkips(t, len, names, PropNext(off, data), rest, to, depth);
    case Node(n, pad, body, rest) =>
      var inner, end, next := NodeInner(off, n), NodeEnd(off, n, body), NodeNext(off, n, body);
      EndSkips(t, len, names, inner, body, end, depth + 1);
      EndNode(t, len, off, n, inner, end, next, depth);
      EndSkips(t, len, names, next, rest, to, depth);
  }

  // Finding a property.

  /** Offset of the first property whose name matches, before any child node, if `e` starts at `off`. */
  function FirstProp(names: seq<byte>, e: Elems, off: nat, name: seq<byte>): Option<nat>
    decreases e
  {
    match e
    case Nil => None
    case Nop(rest) => FirstProp(names, rest, off + 4, name)
    case Prop(nameOff, data, _, rest) =>
      if Match(CStr(names, nameOff), name) then Some(off)
      else FirstProp(names, rest, PropNext(off, data), name)
    case Node(_, _, _, _) => None
  }

  predicate HasNode(e: Elems) {
    match e
    case Nil => false
    case Nop(rest) => HasNode(rest)
    case Prop(_, _, _, rest) => HasNode(rest)
    case Node(_, _, _, _) => true
  }

  lemma {:induction false} PropertyScans(t: Tokens, len: nat, names: seq<byte>, off: nat, e: Elems, to: nat, name: seq<byte>)
    requires Advances(t, len) && Reads(t, names, off, e) && to == off + 4 * Size(e)
    ensures match FirstProp(names, e, off, name)
            case Some(o) => o in t && PropertyFrom(t, len, off, name) == Ok(t[o])
            case None =>
              PropertyFrom(t, len, off, name)
              == if HasNode(e) then Err(ENOENT) else PropertyFrom(t, len, to, name)
    decreases e
  {
    match e
    case Nil =>
    case Nop(rest) => PropertyScans(t, len, names, off + 4, rest, to, name);
    case Prop(nameOff, data, pad, rest) => PropertyScans(t, len, names, PropNext(off, data), rest, to, name);
    case Node(n, pad, body, rest) =>
  }

  // Finding the depth of a node, and its parent.

  lemma DepthNode(t: Tokens, len: nat, off: nat, n: seq<byte>, inner: nat, end: nat, next: nat, depth: nat, target: nat)
    requires Advances(t, len) && NodeTokens(t, off, n, inner, end, next) && target != off && target != end
    requires DepthFrom(t, len, inner, depth + 1, target) == DepthFrom(t, len, end, depth + 1, target)
    ensures DepthFrom(t, len, off, depth, target) == DepthFrom(t, len, next, depth, target)
  {
  }

  /** A walk that looks for a token outside this encoding passes over all of it. */
  lemma {:induction false} DepthSkips(t: Tokens, len: nat, names: seq<byte>, off: nat, e: Elems, to: nat, depth: nat, target: nat)
    requires Advances(t, len) && Reads(t, names, off, e) && to == off + 4 * Size(e) && (target < off || to <= target)
    ensures DepthFrom(t, len, off, depth, target) == DepthFrom(t, len, to, depth, target)
    decreases e
  {
    match e
    case Nil =>
    case Nop(rest) => DepthSkips(t, len, names, off + 4, rest, to, depth, target);
    case Prop(nameOff, data, pad, rest) => DepthSkips(t, len, names, PropNext(off, data), rest, to, depth, target);
    case Node(n, pad, body, rest) =>
      var inner, end, next := NodeInner(off, n), NodeEnd(off, n, body), NodeNext(off, n, body);
      DepthSkips(t, len, names, inner, body, end, depth + 1, target);
      DepthNode(t, len, off, n, inner, end, next, depth, target);
      DepthSkips(t, len, names, next, rest, to, depth, target);
  }

  /** The last node begun at depth `pdepth`, if any, when `e` starts at depth `depth`. */
  function LastAt(e: Elems, off: nat, depth: nat, pdepth: int, parent: nat): nat {
    match e
    case Nil => parent
    case Nop(rest) => LastAt(rest, off + 4, depth, pdepth, parent)
    case Prop(_, data, _, rest) => LastAt(rest, PropNext(off, data), depth, pdepth, parent)
    case Node(n, _, body, rest) =>
      var p := if depth == pdepth then off else parent;
      var q := LastAt(body, NodeInner(off, n), depth + 1, pdepth, p);
      LastAt(rest, NodeNext(off, n, body), depth, pdepth, q)
  }

  lemma {:induction false} LastAtTooDeep(e: Elems, off: nat, depth: nat, pdepth: int, parent: nat)
    requires pdepth < depth
    ensures LastAt(e, off, depth, pdepth, parent) == parent
    decreases e
  {
    match e
    case Nil =>
    case Nop(rest) => LastAtTooDeep(rest, off + 4, depth, pdepth, parent);
    case Prop(_, data, _, rest) => LastAtTooDeep(rest, PropNext(off, data), depth, pdepth, parent);
    case Node(n, _, body, rest) =>
      LastAtTooDeep(body, NodeInner(off, n), depth + 1, pdepth, parent);
      LastAtTooDeep(rest, NodeNext(off, n, body), depth, pdepth, parent);
  }

  lemma ParentNode(
    t: Tokens, len: nat, off: nat, n: seq<byte>, inner: nat, end: nat, next: nat, depth: nat, pdepth: int, target: nat, parent: nat, q: nat)
    requires Advances(t, len) && NodeTokens(t, off, n, inner, end, next) && target != off && target != end
    requires var p := if depth == pdepth then off else parent;
             ParentFrom(t, len, inner, depth + 1, pdepth, target, p) == ParentFrom(t, len, end, depth + 1, pdepth, target, q)
    ensures ParentFrom(t, len, off, depth, pdepth, target, parent) == ParentFrom(t, len, next, depth, pdepth, target, q)
  {
  }

  /** A token that neither begins nor ends a node does not affect the parent. */
  lemma ParentFlat(t: Tokens, len: nat, off: nat, depth: nat, pdepth: int, target: nat, parent: nat, next: nat)
    requires Advances(t, len) && off in t && target != off && t[off].next == next
    requires t[off].depth == 0 && (t[off].name.None? || t[off].data.Some?)
    ensures ParentFrom(t, len, off, depth, pdepth, target, parent) == ParentFrom(t, len, next, depth, pdepth, target, parent)
  {
  }

  lemma {:induction false} ParentSkips(
    t: Tokens, len: nat, names: seq<byte>, off: nat, e: Elems, to: nat, depth: nat, pdepth: int, target: nat, parent: nat)
    requires Advances(t, len) && Reads(t, names, off, e) && to == off + 4 * Size(e) && (target < off || to <= target)
    ensures ParentFrom(t, len, off, depth, pdepth, target, parent)
            == ParentFrom(t, len, to, depth, pdepth, target, LastAt(e, off, depth, pdepth, parent))
    decreases e
  {
    match e
    case Nil =>
    case Nop(rest) =>
      ParentFlat(t, len, off, depth, pdepth, target, parent, off + 4);
      ParentSkips(t, len, names, off + 4, rest, to, depth, pdepth, target, parent);
    case Prop(nameOff, data, pad, rest) =>
      ParentFlat(t, len, off, depth, pdepth, target, parent, PropNext(off, data));
      ParentSkips(t, len, names, PropNext(off, data), rest, to, depth, pdepth, target, parent);
    case Node(n, pad, body, rest) =>
      var inner, end, next := NodeInner(off, n), NodeEnd(off, n, body), NodeNext(off, n, body);
      var p := if depth == pdepth then off else parent;
      var q := LastAt(body, inner, depth + 1, pdepth, p);
      ParentSkips(t, len, names, inner, body, end, depth + 1, pdepth, target, p);
      ParentNode(t, len, off, n, inner, end, next, depth, pdepth, target, parent, q);
      assert LastAt(e, off, depth, pdepth, parent) == LastAt(rest, next, depth, pdepth, q);
      ParentSkips(t, len, names, next, rest, to, depth, pdepth, target, q);
  }
}
