/** Sorted, coalesced lists of free memory blocks. */
module FreeList {
  import B = Bits

  /** A free block: the `size` bytes from address `addr` on. */
  datatype Block = Block(addr: nat, size: nat) {
    function End(): nat {
      addr + size
    }

    predicate Has(x: int) {
      addr <= x < End()
    }

    predicate Disjoint(other: Block) {
      End() <= other.addr || other.End() <= addr
    }
  }

  /** Every block starts above `lo`. */
  predicate Above(bs: seq<Block>, lo: int) {
    bs == [] || (lo < bs[0].addr && Above(bs[1..], lo))
  }

  /** Blocks are non-empty, ascend, and never touch. */
  predicate Canonical(bs: seq<Block>) {
    bs == [] || (bs[0].size > 0 && Above(bs[1..], bs[0].End()) && Canonical(bs[1..]))
  }

  /** Every block starts and ends on a multiple of `align`. */
  predicate AlignedTo(bs: seq<Block>, align: nat)
    requires align > 0
  {
    bs == [] || (bs[0].addr % align == 0 && bs[0].size % align == 0 && AlignedTo(bs[1..], align))
  }

  /** Address `x` lies in some block. */
  predicate Covers(bs: seq<Block>, x: int) {
    bs != [] && (bs[0].Has(x) || Covers(bs[1..], x))
  }

  /** No block of the list shares a byte with `b`. */
  predicate DisjointFrom(bs: seq<Block>, b: Block) {
    bs == [] || (bs[0].Disjoint(b) && DisjointFrom(bs[1..], b))
  }

  function Total(bs: seq<Block>): nat {
    if bs == [] then 0 else bs[0].size + Total(bs[1..])
  }

  // The same notions by index.

  lemma {:induction false} AboveIndex(bs: seq<Block>, lo: int)
    ensures Above(bs, lo) <==> forall i | 0 <= i < |bs| :: lo < bs[i].addr
  {
    if bs != [] {
      AboveIndex(bs[1..], lo);
      assert forall i | 0 < i < |bs| :: bs[i] == bs[1..][i - 1];
    }
  }

  /** The list order that the heap's integrity check asserts, stated pairwise. */
  lemma {:induction false} CanonicalIndex(bs: seq<Block>)
    ensures Canonical(bs) <==>
            && (forall i | 0 <= i < |bs| :: bs[i].size > 0)
            && (forall i, j | 0 <= i < j < |bs| :: bs[i].End() < bs[j].addr)
  {
    if bs != [] {
      CanonicalIndex(bs[1..]);
      AboveIndex(bs[1..], bs[0].End());
      assert forall i | 0 < i < |bs| :: bs[i] == bs[1..][i - 1];
    }
  }

  lemma {:induction false} CoversIndex(bs: seq<Block>, x: int)
    ensures Covers(bs, x) <==> exists i :: 0 <= i < |bs| && bs[i].Has(x)
  {
    if bs != [] {
      CoversIndex(bs[1..], x);
      if Covers(bs[1..], x) {
        var i :| 0 <= i < |bs[1..]| && bs[1..][i].Has(x);
        assert bs[i + 1].Has(x);
      }
      if i :| 0 <= i < |bs| && bs[i].Has(x) {
        if i > 0 {
          assert bs[1..][i - 1].Has(x);
        }
      }
    }
  }

  lemma {:induction false} AlignedIndex(bs: seq<Block>, align: nat)
    requires align > 0
    ensures AlignedTo(bs, align) <==> forall i | 0 <= i < |bs| :: bs[i].addr % align == 0 && bs[i].size % align == 0
  {
    if bs != [] {
      AlignedIndex(bs[1..], align);
      assert forall i | 0 < i < |bs| :: bs[i] == bs[1..][i - 1];
    }
  }

  lemma {:induction false} DisjointIndex(bs: seq<Block>, b: Block)
    ensures DisjointFrom(bs, b) <==> forall i | 0 <= i < |bs| :: bs[i].Disjoint(b)
  {
    if bs != [] {
      DisjointIndex(bs[1..], b);
      assert forall i | 0 < i < |bs| :: bs[i] == bs[1..][i - 1];
    }
  }

  lemma {:induction false} AboveMono(bs: seq<Block>, hi: int, lo: int)
    requires Above(bs, hi) && lo <= hi
    ensures Above(bs, lo)
  {
    if bs != [] {
      AboveMono(bs[1..], hi, lo);
    }
  }

  lemma {:induction false} AboveCovers(bs: seq<Block>, lo: int, x: int)
    requires Above(bs, lo) && Covers(bs, x)
    ensures lo < x
  {
    if !bs[0].Has(x) {
      AboveCovers(bs[1..], lo, x);
    }
  }

  /** Disjointness from a list is disjointness from every byte it covers. */
  lemma {:induction false} DisjointBytes(bs: seq<Block>, b: Block)
    requires Canonical(bs) && b.size > 0
    ensures DisjointFrom(bs, b) <==> forall x | b.Has(x) :: !Covers(bs, x)
  {
    if bs != [] {
      DisjointBytes(bs[1..], b);
      if !bs[0].Disjoint(b) {
        var x := if bs[0].addr <= b.addr then b.addr else bs[0].addr;
        assert b.Has(x) && Covers(bs, x);
      }
    }
  }

  // Uniqueness.

  ghost predicate SameBytes(bs: seq<Block>, cs: seq<Block>) {
    forall x :: Covers(bs, x) <==> Covers(cs, x)
  }

  /** If `bs` starts with a byte then so does `cs`, no later. */
  lemma HeadStarts(bs: seq<Block>, cs: seq<Block>)
    requires Canonical(bs) && Canonical(cs) && SameBytes(bs, cs) && bs != []
    ensures cs != [] && cs[0].addr <= bs[0].addr
  {
    assert Covers(bs, bs[0].addr);
    assert Covers(cs, bs[0].addr);
    if !cs[0].Has(bs[0].addr) {
      AboveCovers(cs[1..], cs[0].End(), bs[0].addr);
    }
  }

  /** The first block of `bs` reaches at least as far as that of `cs`. */
  lemma HeadReaches(bs: seq<Block>, cs: seq<Block>)
    requires Canonical(bs) && Canonical(cs) && SameBytes(bs, cs) && bs != [] && cs != []
    requires bs[0].addr == cs[0].addr
    ensures cs[0].End() <= bs[0].End()
  {
    var e := bs[0].End();
    if Covers(bs[1..], e) {
      AboveCovers(bs[1..], e, e);
    }
    assert !Covers(bs, e);
    assert !cs[0].Has(e);
  }

  lemma TailBytes(bs: seq<Block>, x: int)
    requires Canonical(bs) && bs != []
    ensures Covers(bs[1..], x) <==> Covers(bs, x) && x > bs[0].End()
  {
    if Covers(bs[1..], x) {
      AboveCovers(bs[1..], bs[0].End(), x);
    }
  }

  /**
    A canonical list is determined by the set of bytes it covers: this is what
    makes "the free list is restored" follow from "the free bytes are restored".
   */
  lemma {:induction false} CanonicalUnique(bs: seq<Block>, cs: seq<Block>)
    requires Canonical(bs) && Canonical(cs) && SameBytes(bs, cs)
    ensures bs == cs
    decreases |bs| + |cs|
  {
    if bs != [] {
      HeadStarts(bs, cs);
    }
    if cs != [] {
      HeadStarts(cs, bs);
    }
    if bs != [] {
      HeadReaches(bs, cs);
      HeadReaches(cs, bs);
      forall x
        ensures Covers(bs[1..], x) <==> Covers(cs[1..], x)
      {
        TailBytes(bs, x);
        TailBytes(cs, x);
      }
      CanonicalUnique(bs[1..], cs[1..]);
      assert bs == [bs[0]] + bs[1..] && cs == [cs[0]] + cs[1..];
    }
  }

  // Taking a block out of the list.

  /** `rest` headed by the `size` bytes from `addr`, if there are any. */
  function OptCons(addr: nat, size: nat, rest: seq<Block>): seq<Block> {
    if size == 0 then rest else [Block(addr, size)] + rest
  }

  /** Block `k` split in three, with its middle `taken` bytes removed from the list. */
  function Split(bs: seq<Block>, k: nat, pre: nat, taken: nat): seq<Block>
    requires k < |bs| && pre + taken <= bs[k].size
  {
    if k > 0 then
      [bs[0]] + Split(bs[1..], k - 1, pre, taken)
    else
      var b := bs[0];
      OptCons(b.addr, pre, OptCons(b.addr + pre + taken, b.size - pre - taken, bs[1..]))
  }

  /** What splitting keeps: order, lower bounds and alignment; and what it takes: exactly the middle. */
  lemma {:induction false} SplitKeeps(bs: seq<Block>, k: nat, pre: nat, taken: nat, lo: int)
    requires k < |bs| && pre + taken <= bs[k].size && taken > 0 && Canonical(bs) && Above(bs, lo)
    ensures Canonical(Split(bs, k, pre, taken)) && Above(Split(bs, k, pre, taken), lo)
    ensures Total(Split(bs, k, pre, taken)) == Total(bs) - taken
    decreases k
  {
    var b, t := bs[0], bs[1..];
    if k > 0 {
      SplitKeeps(t, k - 1, pre, taken, lo);
      SplitKeeps(t, k - 1, pre, taken, b.End());
    } else {
      AboveMono(t, b.End(), b.addr + pre);
    }
  }

  lemma {:induction false} SplitCovers(bs: seq<Block>, k: nat, pre: nat, taken: nat, x: int)
    requires k < |bs| && pre + taken <= bs[k].size && taken > 0 && Canonical(bs)
    ensures Covers(Split(bs, k, pre, taken), x) <==> Covers(bs, x) && !Block(bs[k].addr + pre, taken).Has(x)
    decreases k
  {
    var b, t := bs[0], bs[1..];
    if k > 0 {
      SplitCovers(t, k - 1, pre, taken, x);
      AboveIndex(t, b.End());
    } else if Covers(t, x) {
      AboveCovers(t, b.End(), x);
    }
  }

  lemma {:induction false} SplitAligned(bs: seq<Block>, k: nat, pre: nat, taken: nat, align: nat)
    requires k < |bs| && pre + taken <= bs[k].size && align > 0 && AlignedTo(bs, align)
    requires pre % align == 0 && taken % align == 0
    ensures AlignedTo(Split(bs, k, pre, taken), align)
    decreases k
  {
    var b, t := bs[0], bs[1..];
    if k > 0 {
      SplitAligned(t, k - 1, pre, taken, align);
    } else {
      B.AddMultiples(b.addr, pre, align);
      B.AddMultiples(b.addr + pre, taken, align);
      B.AddMultiples(b.size, pre, align);
      B.AddMultiples(b.size - pre, taken, align);
    }
  }

  // Putting a block into the list.

  /** The list with block `f` added, merged with the blocks it touches. */
  function Insert(bs: seq<Block>, f: Block): seq<Block>
  {
    if bs == [] then
      [f]
    else if bs[0].End() < f.addr then
      [bs[0]] + Insert(bs[1..], f)
    else if bs[0].End() == f.addr then
      Insert(bs[1..], Block(bs[0].addr, bs[0].size + f.size))
    else if f.End() == bs[0].addr then
      [Block(f.addr, f.size + bs[0].size)] + bs[1..]
    else
      [f] + bs
  }

  lemma {:induction false} InsertKeeps(bs: seq<Block>, f: Block, lo: int)
    requires Canonical(bs) && f.size > 0 && DisjointFrom(bs, f) && Above(bs, lo) && lo < f.addr
    ensures Canonical(Insert(bs, f)) && Above(Insert(bs, f), lo)
    ensures Total(Insert(bs, f)) == Total(bs) + f.size
    decreases |bs|
  {
    if bs != [] {
      var b, t := bs[0], bs[1..];
      if b.End() < f.addr {
        InsertKeeps(t, f, lo);
        InsertKeeps(t, f, b.End());
      } else if b.End() == f.addr {
        var g := Block(b.addr, b.size + f.size);
        AboveDisjoint(t, b, f);
        InsertKeeps(t, g, lo);
      } else {
        AboveMono(t, b.End(), f.End());
      }
    }
  }

  /** Merging `f` onto the end of `b` stays clear of the blocks above `b`. */
  lemma {:induction false} AboveDisjoint(t: seq<Block>, b: Block, f: Block)
    requires Above(t, b.End()) && DisjointFrom(t, f) && b.End() == f.addr
    ensures DisjointFrom(t, Block(b.addr, b.size + f.size))
  {
    if t != [] {
      AboveDisjoint(t[1..], b, f);
    }
  }

  lemma {:induction false} InsertCovers(bs: seq<Block>, f: Block, x: int)
    requires Canonical(bs) && f.size > 0
    ensures Covers(Insert(bs, f), x) <==> Covers(bs, x) || f.Has(x)
    decreases |bs|
  {
    if bs != [] {
      var b, t := bs[0], bs[1..];
      if b.End() < f.addr {
        InsertCovers(t, f, x);
      } else if b.End() == f.addr {
        InsertCovers(t, Block(b.addr, b.size + f.size), x);
      }
    }
  }

  lemma {:induction false} InsertAligned(bs: seq<Block>, f: Block, align: nat)
    requires align > 0 && AlignedTo(bs, align) && f.addr % align == 0 && f.size % align == 0
    ensures AlignedTo(Insert(bs, f), align)
    decreases |bs|
  {
    if bs != [] {
      var b, t := bs[0], bs[1..];
      B.AddMultiples(b.size, f.size, align);
      if b.End() < f.addr {
        InsertAligned(t, f, align);
      } else if b.End() == f.addr {
        InsertAligned(t, Block(b.addr, b.size + f.size), align);
      }
    }
  }

  /** Removing a range and inserting it again restores the list, block for block. */
  lemma SplitThenInsert(bs: seq<Block>, k: nat, pre: nat, taken: nat)
    requires k < |bs| && pre + taken <= bs[k].size && taken > 0 && Canonical(bs)
    ensures Insert(Split(bs, k, pre, taken), Block(bs[k].addr + pre, taken)) == bs
  {
    var cs, m := Split(bs, k, pre, taken), Block(bs[k].addr + pre, taken);
    CanonicalIndex(bs);
    AboveIndex(bs, -1);
    SplitKeeps(bs, k, pre, taken, -1);
    forall x
      ensures Covers(Insert(cs, m), x) <==> Covers(bs, x)
      ensures m.Has(x) ==> !Covers(cs, x)
    {
      SplitCovers(bs, k, pre, taken, x);
      InsertCovers(cs, m, x);
      CoversIndex(bs, x);
      assert m.Has(x) ==> bs[k].Has(x);
    }
    DisjointBytes(cs, m);
    InsertKeeps(cs, m, -1);
    CanonicalUnique(Insert(cs, m), bs);
  }
}
