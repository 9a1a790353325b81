/** The code of settings.c that stores, registers and reprioritises settings blocks. */
module SettingsTree {
  import opened Basics
  import opened Settings

  function Up(path: seq<nat>): seq<nat>
    requires path != []
  {
    path[..|path| - 1]
  }

  function BlockAt(b: Block, path: seq<nat>): Block
    requires IsPath(b, path)
    decreases |path|
  {
    if path == [] then b else BlockAt(b.kids[path[0]], path[1..])
  }

  /** The tree with the children of one block replaced. */
  function PutKids(b: Block, path: seq<nat>, kids: seq<Block>): Block
    requires IsPath(b, path)
    decreases |path|
  {
    if path == [] then b.(kids := kids) else b.(kids := b.kids[path[0] := PutKids(b.kids[path[0]], path[1..], kids)])
  }

  lemma {:induction false} UpPath(b: Block, path: seq<nat>)
    requires IsPath(b, path) && path != []
    ensures IsPath(b, Up(path)) && path[|path| - 1] < |BlockAt(b, Up(path)).kids|
    decreases |path|
  {
    if |path| > 1 {
      UpPath(b.kids[path[0]], path[1..]);
      assert Up(path)[1..] == Up(path[1..]);
    }
  }

  /** Putting a block in place among its siblings, then its parent and so on, is putting it and all its ancestors in place. */
  lemma {:induction false} OneLevel(b: Block, path: seq<nat>, kids: seq<Block>)
    requires IsPath(b, path) && path != [] && IsPath(b, Up(path)) && path[|path| - 1] < |BlockAt(b, Up(path)).kids|
    requires var was, i := BlockAt(b, Up(path)).kids, path[|path| - 1]; kids == Reinsert(Remove(was, i), was[i])
    ensures IsPath(PutKids(b, Up(path), kids), Up(path))
    ensures Reprioritise(PutKids(b, Up(path), kids), Up(path)) == Reprioritise(b, path)
    decreases |path|
  {
    if |path| > 1 {
      var i := path[0];
      assert Up(path)[1..] == Up(path[1..]);
      OneLevel(b.kids[i], path[1..], kids);
      var u := PutKids(b, Up(path), kids);
      assert Remove(u.kids, i) == Remove(b.kids, i);
    } else {
      assert path[1..] == [];
    }
  }

  /** The search passes over a sibling. */
  lemma PassOver(others: seq<Block>, c: Block, p: nat)
    requires p < |others| && !Before(Priority(c), c.order, others[p])
    ensures others[..p] + Reinsert(others[p..], c) == others[..p + 1] + Reinsert(others[p + 1..], c)
  {
    assert others[p..][1..] == others[p + 1..];
    assert others[..p + 1] == others[..p] + [others[p]];
  }

  class Tree {
    var root: Block

    constructor (b: Block)
      ensures root == b
    {
      root := b;
    }

    /** fetch_setting(), from a given block: a search of the subtree. */
    method FetchFrom(b: Block, key: string) returns (r: Option<int>)
      ensures r == Fetch(b, key)
      decreases b
    {
      if key in b.values {
        return Some(b.values[key]);
      }
      for i := 0 to |b.kids|
        invariant FetchAll(b.kids[i..], key) == FetchAll(b.kids, key)
      {
        assert b.kids[i..][0] == b.kids[i] && b.kids[i..][1..] == b.kids[i + 1..];
        r := FetchFrom(b.kids[i], key);
        if r.Some? {
          return;
        }
      }
      r := None;
    }

    /** fetch_intz_setting() for the priority. */
    method PriorityOf(b: Block) returns (p: int)
      ensures p == Priority(b)
    {
      var r := FetchFrom(b, PRIORITY);
      p := match r case None => 0 case Some(v) => v;
    }

    /** The loop of reprioritise_settings(): reinsert a block among its siblings. */
    method Place(others: seq<Block>, c: Block) returns (kids: seq<Block>)
      ensures kids == Reinsert(others, c)
    {
      var priority := PriorityOf(c);
      var p := 0;
      while p < |others|
        invariant p <= |others| && Reinsert(others, c) == others[..p] + Reinsert(others[p..], c)
      {
        var tmp := PriorityOf(others[p]);
        if priority > tmp || c.order > others[p].order {
          break;
        }
        PassOver(others, c, p);
        p := p + 1;
      }
      kids := others[..p] + ([c] + others[p..]);
    }

    /** reprioritise_settings(), which ends at the root. */
    method ReprioritiseBlock(path: seq<nat>)
      requires IsPath(root, path)
      modifies this
      ensures root == Reprioritise(old(root), path)
      decreases |path|
    {
      if path == [] {
        return;
      }
      UpPath(root, path);
      var siblings, i := BlockAt(root, Up(path)).kids, path[|path| - 1];
      var kids := Place(Remove(siblings, i), siblings[i]);
      OneLevel(root, path, kids);
      root := PutKids(root, Up(path), kids);
      ReprioritiseBlock(Up(path));
    }

    /** store_setting() */
    method StoreSetting(path: seq<nat>, key: string, v: Option<int>)
      requires IsPath(root, path)
      modifies this
      ensures root == Store(old(root), path, key, v)
    {
      StoreKeepsPath(root, path, key, v);
      root := StoreAt(root, path, key, v);
      if key == PRIORITY {
        ReprioritiseBlock(path);
      }
    }

    /** register_settings(), below the block at `path` */
    method RegisterBlock(path: seq<nat>, c: Block)
      requires IsPath(root, path) && c.name != ""
      modifies this
      ensures IsPath(AddAt(old(root), path, c), NewPath(old(root), path, c))
      ensures root == Reprioritise(AddAt(old(root), path, c), NewPath(old(root), path, c))
    {
      AddPath(root, path, c);
      var at := NewPath(root, path, c);
      root := AddAt(root, path, c);
      ReprioritiseBlock(at);
    }
  }

  lemma {:induction false} AddPath(b: Block, path: seq<nat>, c: Block)
    requires IsPath(b, path)
    ensures IsPath(AddAt(b, path, c), NewPath(b, path, c))
    decreases |path|
  {
    var u, at := AddAt(b, path, c), NewPath(b, path, c);
    if path != [] {
      AddPath(b.kids[path[0]], path[1..], c);
      assert at[1..] == NewPath(b.kids[path[0]], path[1..], c);
    }
  }
}
