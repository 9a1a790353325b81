/** The settings tree: blocks searched in preorder, siblings kept in order of effective priority. */
module Settings {
  import opened Basics

  /** A settings block: its own values by setting name, its sibling order, and its children in list order. */
  datatype Block = Block(name: string, values: map<string, int>, order: int, kids: seq<Block>)

  /** The setting that holds a block's priority. */
  const PRIORITY := "priority"

  /** fetch_setting(): the block itself, then each child in turn. */
  function Fetch(b: Block, key: string): Option<int>
    decreases b, 1
  {
    if key in b.values then Some(b.values[key]) else FetchAll(b.kids, key)
  }

  function FetchAll(kids: seq<Block>, key: string): Option<int>
    decreases kids, 0
  {
    if kids == [] then None
    else
      match Fetch(kids[0], key)
      case Some(v) => Some(v)
      case None => FetchAll(kids[1..], key)
  }

  /** The own values of all blocks of a subtree, parents before children and siblings in order. */
  function Preorder(b: Block): seq<map<string, int>>
    decreases b, 1
  {
    [b.values] + PreorderAll(b.kids)
  }

  function PreorderAll(kids: seq<Block>): seq<map<string, int>>
    decreases kids, 0
  {
    if kids == [] then [] else Preorder(kids[0]) + PreorderAll(kids[1..])
  }

  /** The first value of a setting in a list of blocks. */
  function First(values: seq<map<string, int>>, key: string): Option<int> {
    if values == [] then None else if key in values[0] then Some(values[0][key]) else First(values[1..], key)
  }

  lemma {:induction false} FirstOfTwo(a: seq<map<string, int>>, b: seq<map<string, int>>, key: string)
    ensures First(a + b, key) == if First(a, key).Some? then First(a, key) else First(b, key)
  {
    if a == [] {
      assert a + b == b;
    } else {
      assert (a + b)[1..] == a[1..] + b;
      FirstOfTwo(a[1..], b, key);
    }
  }

  /** A fetch finds the first value in preorder. */
  lemma {:induction false} FetchIsFirst(b: Block, key: string)
    ensures Fetch(b, key) == First(Preorder(b), key)
    decreases b, 1
  {
    FetchAllIsFirst(b.kids, key);
    assert Preorder(b)[1..] == PreorderAll(b.kids);
  }

  lemma {:induction false} FetchAllIsFirst(kids: seq<Block>, key: string)
    ensures FetchAll(kids, key) == First(PreorderAll(kids), key)
    decreases kids, 0
  {
    if kids != [] {
      FetchIsFirst(kids[0], key);
      FetchAllIsFirst(kids[1..], key);
      FirstOfTwo(Preorder(kids[0]), PreorderAll(kids[1..]), key);
    }
  }

  /** A priority that was found; zero if none is set. */
  function Level(found: Option<int>): int {
    match found
    case None => 0
    case Some(v) => v
  }

  /** The effective priority of a block. */
  function Priority(b: Block): int {
    Level(Fetch(b, PRIORITY))
  }

  // Sorted lists.

  /** Priorities do not increase along the list. */
  predicate Falling(kids: seq<Block>) {
    |kids| <= 1 || (Priority(kids[0]) >= Priority(kids[1]) && Falling(kids[1..]))
  }

  lemma {:induction false} FallingMeans(kids: seq<Block>, i: nat, j: nat)
    requires Falling(kids) && i <= j < |kids|
    ensures Priority(kids[i]) >= Priority(kids[j])
  {
    if i > 0 {
      FallingMeans(kids[1..], i - 1, j - 1);
    } else if j > 0 {
      FallingMeans(kids[1..], 0, j - 1);
    }
  }

  /** Every sibling list in the subtree is in order of effective priority. */
  predicate Sorted(b: Block)
    decreases b, 1
  {
    Falling(b.kids) && AllSorted(b.kids)
  }

  predicate AllSorted(kids: seq<Block>)
    decreases kids, 0
  {
    kids == [] || (Sorted(kids[0]) && AllSorted(kids[1..]))
  }

  /** reprioritise_settings() inserts before the first sibling of lower priority or lower order. */
  predicate Before(priority: int, order: int, tmp: Block) {
    priority > Priority(tmp) || order > tmp.order
  }

  function Reinsert(kids: seq<Block>, c: Block): seq<Block> {
    if kids == [] || Before(Priority(c), c.order, kids[0]) then [c] + kids else [kids[0]] + Reinsert(kids[1..], c)
  }

  /** A sibling of higher priority but lower order, at which the search stops too early. */
  predicate Misplaces(kids: seq<Block>, priority: int, order: int) {
    exists i | 0 <= i < |kids| :: Priority(kids[i]) > priority && kids[i].order < order
  }

  lemma NoneAbove(kids: seq<Block>, priority: int, order: int)
    requires Falling(kids) && (kids != [] ==> Priority(kids[0]) <= priority)
    ensures !Misplaces(kids, priority, order)
  {
    forall i | 0 <= i < |kids|
      ensures Priority(kids[i]) <= priority
    {
      FallingMeans(kids, 0, i);
    }
  }

  lemma MisplacesRest(kids: seq<Block>, priority: int, order: int)
    requires kids != [] && !(Priority(kids[0]) > priority && kids[0].order < order)
    ensures Misplaces(kids, priority, order) <==> Misplaces(kids[1..], priority, order)
  {
    assert forall i | 0 < i < |kids| :: kids[i] == kids[1..][i - 1];
  }

  /** Reinserting into a sorted list leaves it sorted exactly if no sibling has higher priority and lower order. */
  lemma {:induction false} ReinsertExact(kids: seq<Block>, c: Block)
    requires Falling(kids)
    ensures Falling(Reinsert(kids, c)) <==> !Misplaces(kids, Priority(c), c.order)
  {
    var r := Reinsert(kids, c);
    if kids == [] || Before(Priority(c), c.order, kids[0]) {
      assert r[1..] == kids;
      if kids == [] || Priority(c) >= Priority(kids[0]) {
        NoneAbove(kids, Priority(c), c.order);
      }
    } else {
      ReinsertExact(kids[1..], c);
      assert r[1..] == Reinsert(kids[1..], c);
      MisplacesRest(kids, Priority(c), c.order);
    }
  }

  lemma {:induction false} ReinsertSame(kids: seq<Block>, c: Block)
    ensures multiset(Reinsert(kids, c)) == multiset(kids) + multiset{c}
    ensures AllSorted(Reinsert(kids, c)) <==> AllSorted(kids) && Sorted(c)
  {
    if kids == [] || Before(Priority(c), c.order, kids[0]) {
      assert ([c] + kids)[1..] == kids;
    } else {
      ReinsertSame(kids[1..], c);
      assert kids == [kids[0]] + kids[1..];
      assert ([kids[0]] + Reinsert(kids[1..], c))[1..] == Reinsert(kids[1..], c);
    }
  }

  /** Among blocks of equal order, a block goes after all of at least its priority and before all of lower. */
  lemma {:induction false} ReinsertPlace(kids: seq<Block>, c: Block) returns (p: nat)
    requires Falling(kids) && forall k | k in kids :: k.order == c.order
    ensures p <= |kids| && Reinsert(kids, c) == kids[..p] + [c] + kids[p..]
    ensures forall i | 0 <= i < p :: Priority(kids[i]) >= Priority(c)
    ensures forall i | p <= i < |kids| :: Priority(kids[i]) < Priority(c)
  {
    p := 0;
    if kids != [] {
      assert kids[0] in kids;
      if Before(Priority(c), c.order, kids[0]) {
        forall i | 0 <= i < |kids|
          ensures Priority(kids[i]) < Priority(c)
        {
          FallingMeans(kids, 0, i);
        }
      } else {
        var q := ReinsertPlace(kids[1..], c);
        p := q + 1;
        assert forall i | 0 < i < |kids| :: kids[i] == kids[1..][i - 1];
        assert kids[..p] == [kids[0]] + kids[1..][..q] && kids[p..] == kids[1..][q..];
      }
    }
  }

  // Moving a block, and its ancestors, to their places.

  function Remove(kids: seq<Block>, i: nat): seq<Block>
    requires i < |kids|
  {
    kids[..i] + kids[i + 1..]
  }

  predicate IsPath(b: Block, path: seq<nat>) {
    path == [] || (path[0] < |b.kids| && IsPath(b.kids[path[0]], path[1..]))
  }

  /** reprioritise_settings() for the block at `path`, and then for each of its ancestors. */
  function Reprioritise(b: Block, path: seq<nat>): Block
    requires IsPath(b, path)
    decreases |path|
  {
    if path == [] then b
    else
      var i := path[0];
      b.(kids := Reinsert(Remove(b.kids, i), Reprioritise(b.kids[i], path[1..])))
  }

  /** Every sibling list is sorted but for the place of the block at `path` and of its ancestors. */
  predicate AlmostSorted(b: Block, path: seq<nat>)
    requires IsPath(b, path)
    decreases |path|
  {
    if path == [] then Sorted(b)
    else
      var i := path[0];
      Falling(Remove(b.kids, i)) && AllSorted(Remove(b.kids, i)) && AlmostSorted(b.kids[i], path[1..])
  }

  /** What a search of siblings for a priority finds, with a block that finds `found` in its place among them. */
  function FoundAmong(rest: seq<Block>, found: Option<int>, order: int): Option<int> {
    if rest == [] || Before(Level(found), order, rest[0]) then
      if found.Some? then found else FetchAll(rest, PRIORITY)
    else
      match Fetch(rest[0], PRIORITY)
      case Some(v) => Some(v)
      case None => FoundAmong(rest[1..], found, order)
  }

  /**
    The priority that a block finds once everything at and above `path` is in its place, read
    off the tree as it is: its own, or else the first among its other children and the one
    on the path, with that child where its priority and order put it.
   */
  function NewPriority(b: Block, path: seq<nat>): Option<int>
    requires IsPath(b, path)
    decreases |path|
  {
    if PRIORITY in b.values then Some(b.values[PRIORITY])
    else if path == [] then FetchAll(b.kids, PRIORITY)
    else
      var c := b.kids[path[0]];
      FoundAmong(Remove(b.kids, path[0]), NewPriority(c, path[1..]), c.order)
  }

  lemma {:induction false} FoundReinserted(rest: seq<Block>, c: Block)
    ensures FetchAll(Reinsert(rest, c), PRIORITY) == FoundAmong(rest, Fetch(c, PRIORITY), c.order)
  {
    var r := Reinsert(rest, c);
    if rest == [] || Before(Priority(c), c.order, rest[0]) {
      assert r[0] == c && r[1..] == rest;
    } else {
      FoundReinserted(rest[1..], c);
      assert r[0] == rest[0] && r[1..] == Reinsert(rest[1..], c);
    }
  }

  lemma {:induction false} NewPriorityIs(b: Block, path: seq<nat>)
    requires IsPath(b, path)
    ensures Fetch(Reprioritise(b, path), PRIORITY) == NewPriority(b, path) && Reprioritise(b, path).order == b.order
    decreases |path|
  {
    if path != [] {
      var i := path[0];
      NewPriorityIs(b.kids[i], path[1..]);
      FoundReinserted(Remove(b.kids, i), Reprioritise(b.kids[i], path[1..]));
    }
  }

  /** At no level does another child have higher priority and lower order than the one on the path. */
  predicate Placeable(b: Block, path: seq<nat>)
    requires IsPath(b, path)
    decreases |path|
  {
    path == [] ||
    var c := b.kids[path[0]];
    && Placeable(c, path[1..])
    && !Misplaces(Remove(b.kids, path[0]), Level(NewPriority(c, path[1..])), c.order)
  }

  /** Reprioritising sorts the whole tree again, exactly if every block can be placed. */
  lemma {:induction false} ReprioritiseExact(b: Block, path: seq<nat>)
    requires IsPath(b, path) && AlmostSorted(b, path)
    ensures Sorted(Reprioritise(b, path)) <==> Placeable(b, path)
    decreases |path|
  {
    if path != [] {
      var i := path[0];
      var rest, c := Remove(b.kids, i), Reprioritise(b.kids[i], path[1..]);
      ReprioritiseExact(b.kids[i], path[1..]);
      NewPriorityIs(b.kids[i], path[1..]);
      ReinsertExact(rest, c);
      ReinsertSame(rest, c);
    }
  }

  /** All blocks of a subtree have the same order. */
  predicate EqualOrder(b: Block, order: int)
    decreases b, 1
  {
    b.order == order && AllEqualOrder(b.kids, order)
  }

  predicate AllEqualOrder(kids: seq<Block>, order: int)
    decreases kids, 0
  {
    kids == [] || (EqualOrder(kids[0], order) && AllEqualOrder(kids[1..], order))
  }

  lemma {:induction false} EqualOrderAt(kids: seq<Block>, order: int, i: nat)
    requires AllEqualOrder(kids, order) && i < |kids|
    ensures EqualOrder(kids[i], order) && AllEqualOrder(Remove(kids, i), order)
  {
    if i == 0 {
      assert Remove(kids, i) == kids[1..];
    } else {
      EqualOrderAt(kids[1..], order, i - 1);
      assert Remove(kids, i)[1..] == Remove(kids[1..], i - 1);
    }
  }

  lemma {:induction false} EqualNoneMisplaced(kids: seq<Block>, priority: int, order: int)
    requires AllEqualOrder(kids, order)
    ensures !Misplaces(kids, priority, order)
  {
    if kids != [] {
      EqualNoneMisplaced(kids[1..], priority, order);
      MisplacesRest(kids, priority, order);
    }
  }

  lemma {:induction false} EqualPlaceable(b: Block, path: seq<nat>, order: int)
    requires IsPath(b, path) && EqualOrder(b, order)
    ensures Placeable(b, path)
    decreases |path|
  {
    if path != [] {
      var c := b.kids[path[0]];
      EqualOrderAt(b.kids, order, path[0]);
      EqualPlaceable(c, path[1..], order);
      EqualNoneMisplaced(Remove(b.kids, path[0]), Level(NewPriority(c, path[1..])), order);
    }
  }

  // Storing a value.

  /** The tree with one own value of the block at `path` set or cleared. */
  function StoreAt(b: Block, path: seq<nat>, key: string, v: Option<int>): Block
    requires IsPath(b, path)
    decreases |path|
  {
    if path == [] then b.(values := match v case None => b.values - {key} case Some(x) => b.values[key := x])
    else b.(kids := b.kids[path[0] := StoreAt(b.kids[path[0]], path[1..], key, v)])
  }

  lemma {:induction false} SortedWithout(kids: seq<Block>, i: nat)
    requires Falling(kids) && AllSorted(kids) && i < |kids|
    ensures Falling(Remove(kids, i)) && AllSorted(Remove(kids, i)) && Sorted(kids[i])
  {
    if i == 0 {
      assert Remove(kids, i) == kids[1..];
    } else {
      SortedWithout(kids[1..], i - 1);
      assert Remove(kids, i)[1..] == Remove(kids[1..], i - 1);
      if i == 1 && |kids| > 2 {
        FallingMeans(kids, 0, 2);
      }
    }
  }

  lemma {:induction false} StoreKeepsPath(b: Block, path: seq<nat>, key: string, v: Option<int>)
    requires IsPath(b, path)
    ensures IsPath(StoreAt(b, path, key, v), path)
    decreases |path|
  {
    if path != [] {
      StoreKeepsPath(b.kids[path[0]], path[1..], key, v);
    }
  }

  /** Storing any value disturbs at most the places of the block and its ancestors. */
  lemma {:induction false} StoreDisturbs(b: Block, path: seq<nat>, key: string, v: Option<int>)
    requires IsPath(b, path) && Sorted(b)
    ensures IsPath(StoreAt(b, path, key, v), path) && AlmostSorted(StoreAt(b, path, key, v), path)
    decreases |path|
  {
    if path != [] {
      var i := path[0];
      SortedWithout(b.kids, i);
      StoreDisturbs(b.kids[i], path[1..], key, v);
      var u := StoreAt(b, path, key, v);
      assert Remove(u.kids, i) == Remove(b.kids, i);
    }
  }

  /** Storing any other setting changes no priority. */
  lemma {:induction false} StoreOther(b: Block, path: seq<nat>, key: string, v: Option<int>, other: string)
    requires IsPath(b, path) && key != other
    ensures Fetch(StoreAt(b, path, key, v), other) == Fetch(b, other)
    decreases |path|
  {
    if path != [] {
      var i := path[0];
      StoreOther(b.kids[i], path[1..], key, v, other);
      FetchReplaced(b.kids, i, StoreAt(b.kids[i], path[1..], key, v), other);
    }
  }

  lemma {:induction false} FetchReplaced(kids: seq<Block>, i: nat, c: Block, key: string)
    requires i < |kids| && Fetch(c, key) == Fetch(kids[i], key)
    ensures FetchAll(kids[i := c], key) == FetchAll(kids, key)
  {
    if i == 0 {
      assert kids[i := c][1..] == kids[1..];
    } else {
      FetchReplaced(kids[1..], i - 1, c, key);
      assert kids[i := c][1..] == kids[1..][i - 1 := c];
    }
  }

  lemma {:induction false} SortedReplaced(kids: seq<Block>, i: nat, c: Block)
    requires i < |kids| && Falling(kids) && AllSorted(kids) && Sorted(c) && Priority(c) == Priority(kids[i])
    ensures Falling(kids[i := c]) && AllSorted(kids[i := c])
  {
    if i == 0 {
      assert kids[i := c][1..] == kids[1..];
    } else {
      SortedReplaced(kids[1..], i - 1, c);
      assert kids[i := c][1..] == kids[1..][i - 1 := c];
    }
  }

  /** So no sibling list is disturbed. */
  lemma {:induction false} StoreOtherSorted(b: Block, path: seq<nat>, key: string, v: Option<int>)
    requires IsPath(b, path) && Sorted(b) && key != PRIORITY
    ensures Sorted(StoreAt(b, path, key, v))
    decreases |path|
  {
    if path != [] {
      var i := path[0];
      SortedWithout(b.kids, i);
      StoreOtherSorted(b.kids[i], path[1..], key, v);
      StoreOther(b.kids[i], path[1..], key, v, PRIORITY);
      SortedReplaced(b.kids, i, StoreAt(b.kids[i], path[1..], key, v));
    }
  }

  lemma {:induction false} StoreEqualOrder(b: Block, path: seq<nat>, key: string, v: Option<int>, order: int)
    requires IsPath(b, path) && EqualOrder(b, order)
    ensures EqualOrder(StoreAt(b, path, key, v), order)
    decreases |path|
  {
    if path != [] {
      var i := path[0];
      EqualOrderAt(b.kids, order, i);
      StoreEqualOrder(b.kids[i], path[1..], key, v, order);
      EqualReplaced(b.kids, i, StoreAt(b.kids[i], path[1..], key, v), order);
    }
  }

  lemma {:induction false} EqualReplaced(kids: seq<Block>, i: nat, c: Block, order: int)
    requires i < |kids| && AllEqualOrder(kids, order) && EqualOrder(c, order)
    ensures AllEqualOrder(kids[i := c], order)
  {
    if i == 0 {
      assert kids[i := c][1..] == kids[1..];
    } else {
      EqualReplaced(kids[1..], i - 1, c, order);
      assert kids[i := c][1..] == kids[1..][i - 1 := c];
    }
  }

  /** store_setting() on a generic settings block. */
  function Store(b: Block, path: seq<nat>, key: string, v: Option<int>): Block
    requires IsPath(b, path)
  {
    StoreKeepsPath(b, path, key, v);
    var u := StoreAt(b, path, key, v);
    if key == PRIORITY then Reprioritise(u, path) else u
  }

  /** With blocks of equal order, every sibling list is sorted again after any store. */
  lemma StoreSorted(b: Block, path: seq<nat>, key: string, v: Option<int>, order: int)
    requires IsPath(b, path) && Sorted(b) && EqualOrder(b, order)
    ensures Sorted(Store(b, path, key, v))
  {
    if key == PRIORITY {
      StoreDisturbs(b, path, key, v);
      StoreEqualOrder(b, path, key, v, order);
      EqualPlaceable(StoreAt(b, path, key, v), path, order);
      ReprioritiseExact(StoreAt(b, path, key, v), path);
    } else {
      StoreOtherSorted(b, path, key, v);
    }
  }

  // Registering a block.

  /** find_child_settings(): position of the first child of that name. */
  function FindChild(kids: seq<Block>, name: string): (r: Option<nat>)
    ensures r.Some? ==> r.value < |kids| && kids[r.value].name == name
  {
    if kids == [] then None
    else if kids[0].name == name then Some(0)
    else
      match FindChild(kids[1..], name)
      case None => None
      case Some(i) => Some(i + 1)
  }

  /** The children with any block of the same name removed and the new one added last. */
  function WithChild(kids: seq<Block>, c: Block): seq<Block> {
    (match FindChild(kids, c.name) case None => kids case Some(i) => Remove(kids, i)) + [c]
  }

  function AddAt(b: Block, path: seq<nat>, c: Block): Block
    requires IsPath(b, path)
    decreases |path|
  {
    if path == [] then b.(kids := WithChild(b.kids, c))
    else b.(kids := b.kids[path[0] := AddAt(b.kids[path[0]], path[1..], c)])
  }

  /** The path of the block that AddAt() adds. */
  function NewPath(b: Block, path: seq<nat>, c: Block): seq<nat>
    requires IsPath(b, path)
    decreases |path|
  {
    if path == [] then [|WithChild(b.kids, c)| - 1] else [path[0]] + NewPath(b.kids[path[0]], path[1..], c)
  }

  lemma SortedWithoutNamed(kids: seq<Block>, c: Block)
    requires Falling(kids) && AllSorted(kids)
    ensures var all := WithChild(kids, c); Falling(Remove(all, |all| - 1)) && AllSorted(Remove(all, |all| - 1))
  {
    var all := WithChild(kids, c);
    match FindChild(kids, c.name)
    case None => assert Remove(all, |all| - 1) == kids;
    case Some(i) =>
      assert Remove(all, |all| - 1) == Remove(kids, i);
      SortedWithout(kids, i);
  }

  lemma {:induction false} AddDisturbs(b: Block, path: seq<nat>, c: Block)
    requires IsPath(b, path) && Sorted(b) && Sorted(c)
    ensures IsPath(AddAt(b, path, c), NewPath(b, path, c)) && AlmostSorted(AddAt(b, path, c), NewPath(b, path, c))
    decreases |path|
  {
    var u, at := AddAt(b, path, c), NewPath(b, path, c);
    assert at[0] < |u.kids|;
    if path == [] {
      SortedWithoutNamed(b.kids, c);
    } else {
      var i := path[0];
      SortedWithout(b.kids, i);
      AddDisturbs(b.kids[i], path[1..], c);
      assert Remove(u.kids, i) == Remove(b.kids, i);
      assert at[1..] == NewPath(b.kids[i], path[1..], c);
    }
  }

  lemma {:induction false} EqualAppend(kids: seq<Block>, c: Block, order: int)
    requires AllEqualOrder(kids, order) && EqualOrder(c, order)
    ensures AllEqualOrder(kids + [c], order)
  {
    if kids == [] {
      assert (kids + [c])[1..] == [];
    } else {
      EqualAppend(kids[1..], c, order);
      assert (kids + [c])[1..] == kids[1..] + [c];
    }
  }

  lemma {:induction false} AddEqualOrder(b: Block, path: seq<nat>, c: Block, order: int)
    requires IsPath(b, path) && EqualOrder(b, order) && EqualOrder(c, order)
    ensures EqualOrder(AddAt(b, path, c), order)
    decreases |path|
  {
    if path == [] {
      if FindChild(b.kids, c.name).Some? {
        EqualOrderAt(b.kids, order, FindChild(b.kids, c.name).value);
        EqualAppend(Remove(b.kids, FindChild(b.kids, c.name).value), c, order);
      } else {
        EqualAppend(b.kids, c, order);
      }
    } else {
      EqualOrderAt(b.kids, order, path[0]);
      AddEqualOrder(b.kids[path[0]], path[1..], c, order);
      EqualReplaced(b.kids, path[0], AddAt(b.kids[path[0]], path[1..], c), order);
    }
  }

  /** With blocks of equal order, every sibling list is sorted again after a sorted block is registered. */
  lemma RegisterSorted(b: Block, path: seq<nat>, c: Block, order: int)
    requires IsPath(b, path) && Sorted(b) && Sorted(c) && EqualOrder(b, order) && EqualOrder(c, order)
    ensures IsPath(AddAt(b, path, c), NewPath(b, path, c))
    ensures Sorted(Reprioritise(AddAt(b, path, c), NewPath(b, path, c)))
  {
    var u, at := AddAt(b, path, c), NewPath(b, path, c);
    AddDisturbs(b, path, c);
    AddEqualOrder(b, path, c, order);
    EqualPlaceable(u, at, order);
    ReprioritiseExact(u, at);
  }

  /**
    Orders that differ: a block of priority 1 and order 1 is put before a sibling of
    priority 5 and order 0, so that a search of the parent finds the lower priority first.
   */
  lemma MixedOrder()
    ensures var high, low := Block("a", map[PRIORITY := 5], 0, []), Block("b", map[PRIORITY := 1], 1, []);
            Reinsert([high], low) == [low, high] && !Falling([low, high])
  {
  }

  /**
    Reordering children changes the priority of their parent, which is why the
    ancestors are put in place as well.
   */
  lemma ParentMoves()
    ensures var x, y := Block("x", map[PRIORITY := 3], 0, []), Block("y", map[PRIORITY := 9], 0, []);
            var p := Block("p", map[], 0, [x, y]);
            Priority(p) == 3 && Priority(Reprioritise(p, [1])) == 9
  {
    var x, y := Block("x", map[PRIORITY := 3], 0, []), Block("y", map[PRIORITY := 9], 0, []);
    var p := Block("p", map[], 0, [x, y]);
    assert Fetch(x, PRIORITY) == Some(3) && Fetch(y, PRIORITY) == Some(9);
    assert FetchAll([x, y], PRIORITY) == Some(3) && FetchAll([y, x], PRIORITY) == Some(9);
    assert PRIORITY !in p.values;
    assert [1][1..] == [] && IsPath(p.kids[1], []);
    assert Remove(p.kids, 1) == [x];
    assert Reinsert([x], y) == [y] + [x];
    assert Reprioritise(p, [1]).kids == [y, x];
  }
}
