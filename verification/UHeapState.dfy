/** The external heap as a transition system: a heap that grows downwards and shrinks from below. */
module UHeapState {
  import opened Basics
  import opened Bits
  import opened FreeList
  import opened HeapState
  import opened HeapLaws

  /** Alignment of the external heap. */
  const PAGE: nat := 4096

  /** A heap with the bounds of the region it lives in. */
  datatype UState = UState(heap: State, limit: nat, start: nat, end: nat)

  /** Every byte of the heap is free or live, and nothing else is. */
  ghost predicate Tiles(u: UState)
    requires u.heap.align > 0
  {
    forall x :: u.start <= x < u.end <==> Covers(u.heap.blocks, x) || Covers(Feet(u.heap.live, u.heap.align), x)
  }

  /** The bounds are page aligned and ordered. */
  predicate BoundsOk(u: UState) {
    && u.limit % PAGE == 0 && u.start % PAGE == 0 && u.end % PAGE == 0
    && u.limit <= u.start <= u.end <= ADDRESS_LIMIT
  }

  /** What holds also in the middle of growing, when the lowest block may be free. */
  ghost predicate UInvGrown(u: UState) {
    Inv(u.heap) && u.heap.align == PAGE && BoundsOk(u) && Tiles(u)
  }

  /** The invariant between operations: in addition, the lowest block is not free. */
  ghost predicate UInv(u: UState) {
    UInvGrown(u) && Above(u.heap.blocks, u.start)
  }

  // Finding a region.

  /**
    Align a region inwards. A region that ends at the top of the address space loses its
    last page, so that the end does not overflow to zero.
   */
  function Find(u: UState, start: nat, size: nat): UState {
    var end := (start + size) % SIZE_SPACE;
    var after := if end != 0 then end % PAGE else PAGE;
    var before := (0 - start) % PAGE;
    if before + after > size then u
    else
      var e := (end - after) % SIZE_SPACE;
      u.(limit := start + before, start := e, end := e)
  }

  /** The first page boundary in a region, and the last that does not overflow to zero. */
  function FirstPage(start: nat): nat {
    start + (0 - start) % PAGE
  }

  function LastPage(start: nat, size: nat): int {
    var end := start + size;
    if end == 0 || end == SIZE_SPACE then end - PAGE else end - end % PAGE
  }

  /** A region is recorded exactly if its first page boundary is not after its last one, and then it runs from one to the other. */
  lemma FindAligned(u: UState, start: nat, size: nat)
    requires start + size <= SIZE_SPACE
    ensures var v, first, last := Find(u, start, size), FirstPage(start), LastPage(start, size);
            && first % PAGE == 0 && last % PAGE == 0 && start <= first < start + PAGE && last <= start + size <= last + PAGE
            && if first > last then v == u
               else v == u.(limit := first, start := last, end := last) && start <= first <= last < SIZE_SPACE
  {
    FirstPageFacts(start);
    LastPageFacts(start, size);
  }

  lemma FirstPageFacts(start: nat)
    ensures FirstPage(start) % PAGE == 0 && start <= FirstPage(start) < start + PAGE
  {
    AlignForward(start, 0, PAGE, PAGE);
  }

  /** The last page boundary is what the 64-bit arithmetic computes, where it is used. */
  lemma LastPageFacts(start: nat, size: nat)
    requires start + size <= SIZE_SPACE
    ensures var end := (start + size) % SIZE_SPACE;
            var after, last := if end != 0 then end % PAGE else PAGE, LastPage(start, size);
            && last % PAGE == 0 && last <= start + size <= last + PAGE && last < SIZE_SPACE && start + size == last + after
            && (last >= 0 ==> (end - after) % SIZE_SPACE == last)
  {
    var total, last := start + size, LastPage(start, size);
    RoundDown(total, PAGE);
    if total == SIZE_SPACE {
      ModUnique(total, SIZE_SPACE, 1, 0);
      ModUnique(0 - PAGE, SIZE_SPACE, -1, SIZE_SPACE - PAGE);
    } else {
      ModUnique(total, SIZE_SPACE, 0, total);
      if last >= 0 {
        ModUnique(last, SIZE_SPACE, 0, last);
      }
    }
  }

  // Growing.

  /** uheap_grow() once a region is known: `None` if too little space remains. */
  function Grow(u: UState, size: nat): Option<UState> {
    if u.start < u.limit || size > u.start - u.limit then None
    else Some(u.(heap := Populate(u.heap, Block(u.start - size, size)), start := u.start - size))
  }

  lemma BelowStart(u: UState, size: nat)
    requires UInvGrown(u) && 0 < size <= u.start - u.limit && size % PAGE == 0
    ensures Populatable(u.heap, Block(u.start - size, size))
  {
    var b := Block(u.start - size, size);
    AddMultiples(u.start, size, PAGE);
    forall x
      ensures !(Covers(u.heap.blocks, x) && Covers([b], x))
      ensures !(Covers([b], x) && Covers(Feet(u.heap.live, PAGE), x))
    {
      CoversOne(b, x);
    }
  }

  /**
    Growing succeeds exactly when the space remains. It then keeps the heap sound exactly
    when the new start is not address zero, which the allocator takes for "no memory".
   */
  lemma GrowExact(u: UState, size: nat)
    requires UInv(u) && size > 0 && size % PAGE == 0
    ensures Grow(u, size).Some? <==> size <= u.start - u.limit
    ensures Grow(u, size).Some? ==>
              var v := Grow(u, size).value;
              && (UInvGrown(v) <==> u.start != size)
              && (u.start != size ==> v.heap.blocks != [] && v.heap.blocks[0].addr == v.start && v.heap.blocks[0].size >= size)
  {
    if size <= u.start - u.limit {
      var b := Block(u.start - size, size);
      var v := Grow(u, size).value;
      BelowStart(u, size);
      PopulateExact(u.heap, b);
      AddMultiples(u.start, size, PAGE);
      if b.addr != 0 {
        forall x
          ensures v.start <= x < v.end <==> Covers(v.heap.blocks, x) || Covers(Feet(v.heap.live, PAGE), x)
        {
          assert Covers(v.heap.blocks, x) <==> Covers(u.heap.blocks, x) || b.Has(x);
        }
        InsertBelowAll(u.heap.blocks, b);
      }
    }
  }

  /** A block that ends at or before the start of the list becomes (part of) its first block. */
  lemma InsertBelowAll(bs: seq<Block>, b: Block)
    requires Canonical(bs) && Above(bs, b.End()) && b.size > 0
    ensures Insert(bs, b) != [] && Insert(bs, b)[0].addr == b.addr && Insert(bs, b)[0].size >= b.size
  {
  }

  // Allocating.

  /** A page-aligned request is placed at the start of a block, so it fits whenever it is no larger. */
  lemma PageFits(s: State, size: nat, offset: nat, b: Block)
    requires s.align == PAGE && b.addr % PAGE == 0
    ensures var r := Prepare(PAGE, size, PAGE, offset);
            r.modulus == PAGE && PreSize(r, b) == 0 && (Fits(r, b) <==> r.actual <= b.size)
  {
    var r := Prepare(PAGE, size, PAGE, offset);
    ModUnique(r.want, PAGE, 0, r.want);
    AddMultiples(0, b.addr, PAGE);
  }

  lemma PageIsPow2()
    ensures IsPow2(PAGE) && ValidAlign(PAGE, PAGE)
  {
    assert Pow2(4) == 16;
    assert Pow2(8) == 256;
    assert Pow2(12) == PAGE;
  }

  /** Allocation moves bytes from free to live, so the heap stays tiled. */
  lemma AllocTiles(u: UState, size: nat, offset: nat)
    requires UInvGrown(u)
    ensures UInvGrown(u.(heap := Alloc(u.heap, size, PAGE, offset).0))
  {
    PageIsPow2();
    AllocKeepsInv(u.heap, size, PAGE, offset);
    var (t, p) := Alloc(u.heap, size, PAGE, offset);
    if p.Some? {
      AllocTakesFootprint(u.heap, size, PAGE, offset);
      var l := Live(p.value, size);
      FeetCons(l, u.heap.live, PAGE);
      forall x
        ensures u.start <= x < u.end <==> Covers(t.blocks, x) || Covers(Feet(t.live, PAGE), x)
      {
        CoversCons(Footprint(l, PAGE), Feet(u.heap.live, PAGE), x);
      }
    }
  }

  /** Without growing, an allocation leaves the lowest block live. */
  lemma AllocKeepsUInv(u: UState, size: nat, offset: nat)
    requires UInv(u)
    ensures UInv(u.(heap := Alloc(u.heap, size, PAGE, offset).0))
  {
    AllocTiles(u, size, offset);
    var r := Prepare(PAGE, size, PAGE, offset);
    var k := FirstFit(r, u.heap.blocks);
    if r.actual != 0 && k < |u.heap.blocks| {
      SplitKeeps(u.heap.blocks, k, PreSize(r, u.heap.blocks[k]), r.actual, u.start);
    }
  }

  /** After growing by the rounded size, the retried allocation succeeds and takes the lowest block. */
  lemma GrownAllocSucceeds(u: UState, size: nat, offset: nat)
    requires UInv(u)
    requires var a := Prepare(PAGE, size, PAGE, offset).actual; 0 < a <= u.start - u.limit && u.start != a
    ensures var v := Grow(u, Prepare(PAGE, size, PAGE, offset).actual).value;
            && Alloc(v.heap, size, PAGE, offset).1.Some?
            && UInv(v.(heap := Alloc(v.heap, size, PAGE, offset).0))
  {
    var r := Prepare(PAGE, size, PAGE, offset);
    PageIsPow2();
    RoundUpFacts(size + r.want % PAGE, PAGE);
    GrowExact(u, r.actual);
    var v := Grow(u, r.actual).value;
    var b := v.heap.blocks[0];
    AlignedIndex(v.heap.blocks, PAGE);
    PageFits(v.heap, size, offset, b);
    assert FirstFit(r, v.heap.blocks) == 0;
    AllocTiles(v, size, offset);
    AboveMono(v.heap.blocks[1..], b.End(), v.start);
  }

  // Freeing.

  /** Free the `i`th live allocation; if the lowest block is now free, give it back to the system. */
  function UFree(u: UState, i: nat): UState
    requires u.heap.align > 0 && i < |u.heap.live|
  {
    var s := Free(u.heap, i);
    if s.blocks != [] && s.blocks[0].addr == u.start then
      var b := s.blocks[0];
      u.(heap := s.(blocks := s.blocks[1..], freemem := s.freemem - b.size), start := u.start + b.size)
    else
      u.(heap := s)
  }

  /** Before shrinking, a free leaves every block at or above the start. */
  lemma FreeTiles(u: UState, i: nat)
    requires UInv(u) && i < |u.heap.live|
    ensures UInvGrown(u.(heap := Free(u.heap, i)))
    ensures Above(Free(u.heap, i).blocks, u.start - 1)
  {
    var f := Footprint(u.heap.live[i], PAGE);
    FreeKeepsInv(u.heap, i);
    forall x
      ensures u.start <= x < u.end <==> Covers(Free(u.heap, i).blocks, x) || Covers(Feet(Free(u.heap, i).live, PAGE), x)
    {
      RemoveFootBytes(u.heap.live, i, PAGE, x);
    }
    RemoveFootBytes(u.heap.live, i, PAGE, f.addr);
    assert u.start <= f.addr;
    AboveMono(u.heap.blocks, u.start, u.start - 1);
    InsertKeeps(u.heap.blocks, f, u.start - 1);
  }

  lemma ShrinkKeeps(u: UState)
    requires UInvGrown(u) && u.heap.blocks != [] && u.heap.blocks[0].addr == u.start
    ensures var s, b := u.heap, u.heap.blocks[0];
            UInv(u.(heap := s.(blocks := s.blocks[1..], freemem := s.freemem - b.size), start := u.start + b.size))
  {
    var s, b := u.heap, u.heap.blocks[0];
    var v := u.(heap := s.(blocks := s.blocks[1..], freemem := s.freemem - b.size), start := u.start + b.size);
    AddMultiples(u.start, b.size, PAGE);
    forall x
      ensures v.start <= x < v.end <==> Covers(v.heap.blocks, x) || Covers(Feet(s.live, PAGE), x)
      ensures !(Covers(v.heap.blocks, x) && Covers(Feet(s.live, PAGE), x))
    {
      TailBytes(s.blocks, x);
      assert b.Has(x) ==> Covers(s.blocks, x);
    }
    assert v.start <= u.end by {
      assert Covers(s.blocks, b.End() - 1);
    }
  }

  /** Freeing keeps the invariant, whether or not the heap shrinks. */
  lemma UFreeKeepsUInv(u: UState, i: nat)
    requires UInv(u) && i < |u.heap.live|
    ensures UInv(UFree(u, i))
  {
    FreeTiles(u, i);
    var v := u.(heap := Free(u.heap, i));
    if v.heap.blocks != [] && v.heap.blocks[0].addr == u.start {
      ShrinkKeeps(v);
    } else if v.heap.blocks != [] {
      AboveMono(v.heap.blocks[1..], v.heap.blocks[0].End(), u.start);
    }
  }

  lemma HeadCovered(bs: seq<Block>)
    ensures bs == [] || bs[0].size == 0 || Covers(bs, bs[0].addr)
  {
  }

  /** The freed block starts the heap exactly if the first block of the new list does, and is that block. */
  lemma FreedIsLowest(u: UState, i: nat, j: nat)
    requires UInv(u) && i < |u.heap.live|
    requires var cs, f := Free(u.heap, i).blocks, Footprint(u.heap.live[i], PAGE);
             j < |cs| && cs[j].addr <= f.addr && f.End() <= cs[j].End()
    ensures var cs := Free(u.heap, i).blocks;
            cs[0].addr == u.start <==> cs[j].addr == u.start
    ensures Free(u.heap, i).blocks[j].addr == u.start ==> j == 0
  {
    var cs, f := Free(u.heap, i).blocks, Footprint(u.heap.live[i], PAGE);
    FreeTiles(u, i);
    FreeKeepsInv(u.heap, i);
    CanonicalIndex(cs);
    AboveIndex(cs, u.start - 1);
    HeadCovered(cs);
    if cs[0].addr == u.start {
      if Covers(u.heap.blocks, u.start) {
        AboveCovers(u.heap.blocks, u.start, u.start);
      }
      assert f.Has(u.start);
      assert j == 0;
    }
  }

  /** When nothing is live, the heap occupies no memory at all. */
  lemma AllFreeIsEmpty(u: UState)
    requires UInv(u) && u.heap.live == []
    ensures u.start == u.end && u.heap.blocks == [] && u.heap.freemem == 0 && u.heap.usedmem == 0
  {
    if u.start < u.end {
      assert Covers(u.heap.blocks, u.start);
      AboveCovers(u.heap.blocks, u.start, u.start);
    }
    HeadCovered(u.heap.blocks);
  }

  // The whole allocation loop.

  /** A region offered by the system memory map. */
  datatype Region = Region(start: nat, size: nat)

  /** Find a region if none is in use yet. */
  function Located(u: UState, region: Region): UState {
    if u.limit == u.end then Find(u, region.start, region.size) else u
  }

  /** heap_alloc_block() on the external heap: search, and on failure grow and search again. */
  function UAlloc(u: UState, region: Region, size: nat, offset: nat): (UState, Option<nat>)
    requires u.heap.align > 0
    decreases u.limit == u.end, u.start
  {
    var (s, p) := Alloc(u.heap, size, PAGE, offset);
    var actual := Prepare(u.heap.align, size, PAGE, offset).actual;
    if p.Some? || actual == 0 then
      (u.(heap := s), p)
    else
      var w := Located(u, region);
      match Grow(w, actual)
      case None => (w, None)
      case Some(v) => UAlloc(v, region, size, offset)
  }

  /** A heap that occupies no memory has neither free nor live blocks. */
  lemma EmptyHeap(u: UState)
    requires UInv(u) && u.start == u.end
    ensures u.heap.blocks == [] && u.heap.live == []
  {
    HeadCovered(u.heap.blocks);
    HeadCovered(Feet(u.heap.live, PAGE));
  }

  /** A usable region lies within the memory the allocator can address. */
  predicate RegionOk(region: Region) {
    region.start + region.size <= ADDRESS_LIMIT
  }

  lemma LocatedKeepsUInv(u: UState, region: Region)
    requires UInv(u) && RegionOk(region)
    ensures UInv(Located(u, region)) && Located(u, region).heap == u.heap
    ensures u.limit > 0 && region.start > 0 ==> Located(u, region).limit > 0
  {
    if u.limit == u.end {
      EmptyHeap(u);
      FindAligned(u, region.start, region.size);
    }
  }

  /**
    Allocation on the external heap, for memory that does not start at address zero: it
    keeps the invariant, and fails exactly when the rounded size is zero or neither a free
    block nor the space below the heap can hold it.
   */
  lemma UAllocExact(u: UState, region: Region, size: nat, offset: nat)
    requires UInv(u) && RegionOk(region) && Located(u, region).limit > 0
    ensures var (v, p) := UAlloc(u, region, size, offset);
            var r := Prepare(PAGE, size, PAGE, offset);
            var w := Located(u, region);
            && UInv(v)
            && (p.None? <==> r.actual == 0 ||
                             ((forall i | 0 <= i < |u.heap.blocks| :: r.actual > u.heap.blocks[i].size)
                              && r.actual > w.start - w.limit))
  {
    var r := Prepare(PAGE, size, PAGE, offset);
    var w := Located(u, region);
    LocatedKeepsUInv(u, region);
    AllocKeepsUInv(u, size, offset);
    AllocFails(u.heap, size, PAGE, offset);
    AlignedIndex(u.heap.blocks, PAGE);
    forall i | 0 <= i < |u.heap.blocks|
      ensures Fits(r, u.heap.blocks[i]) <==> r.actual <= u.heap.blocks[i].size
    {
      PageFits(u.heap, size, offset, u.heap.blocks[i]);
    }
    if Alloc(u.heap, size, PAGE, offset).1.None? && r.actual != 0 && r.actual <= w.start - w.limit {
      GrownAllocSucceeds(w, size, offset);
    }
  }

  /** The heap `v` that `u` has grown to: the next search succeeds, and gives the result for `u`. */
  ghost predicate Grown(v: UState, u: UState, region: Region, size: nat, offset: nat) {
    && UInvGrown(v) && 0 < v.limit && v.limit != v.end && u.heap.align == PAGE
    && Alloc(v.heap, size, PAGE, offset).1.Some?
    && UAlloc(u, region, size, offset) == UAlloc(v, region, size, offset)
  }

  /** A failed search is followed by at most one round of growing. */
  lemma GrowsOnce(u: UState, region: Region, size: nat, offset: nat)
    requires UInv(u) && RegionOk(region) && Located(u, region).limit > 0
    requires Alloc(u.heap, size, PAGE, offset).1.None?
    ensures var w, a := Located(u, region), Prepare(PAGE, size, PAGE, offset).actual;
            && a % PAGE == 0
            && (a != 0 && Grow(w, a).Some? ==> w.start != a && Grown(Grow(w, a).value, u, region, size, offset))
            && (a != 0 && Grow(w, a).None? ==> UAlloc(u, region, size, offset) == (w, None))
  {
    var w, a := Located(u, region), Prepare(PAGE, size, PAGE, offset).actual;
    RoundUpFacts(size + Prepare(PAGE, size, PAGE, offset).want % PAGE, PAGE);
    LocatedKeepsUInv(u, region);
    if a != 0 && a <= w.start - w.limit {
      GrownAllocSucceeds(w, size, offset);
      GrowExact(w, a);
    }
  }

  /** At address zero the promise fails: the heap grows over all of its region and still cannot allocate. */
  lemma GrowToZeroFails(size: nat)
    requires 0 < size && size % PAGE == 0 && size + PAGE <= ADDRESS_LIMIT
    ensures var u := UState(Empty(PAGE), 0, size, size);
            && UInv(u)
            && Grow(u, size).Some?
            && UAlloc(Grow(u, size).value, Region(0, size), size, 0).1 == None
            && !UInvGrown(Grow(u, size).value)
  {
    PageIsPow2();
    EmptyInv(PAGE);
    var u := UState(Empty(PAGE), 0, size, size);
    GrowExact(u, size);
  }

  // Runs.

  datatype UOp = UOpAlloc(region: Region, size: nat, offset: nat) | UOpFree(index: nat)

  ghost predicate UAllowed(u: UState, op: UOp) {
    match op
    case UOpAlloc(region, size, offset) => RegionOk(region) && Located(u, region).limit > 0
    case UOpFree(i) => i < |u.heap.live|
  }

  ghost function UStep(u: UState, op: UOp): UState
    requires u.heap.align > 0 && UAllowed(u, op)
  {
    match op
    case UOpAlloc(region, size, offset) => UAlloc(u, region, size, offset).0
    case UOpFree(i) => UFree(u, i)
  }

  ghost predicate URun(u: UState, ops: seq<UOp>, v: UState)
    decreases |ops|
  {
    if ops == [] then u == v
    else u.heap.align > 0 && UAllowed(u, ops[0]) && URun(UStep(u, ops[0]), ops[1..], v)
  }

  /** Over every run: the bounds stay aligned and ordered, the heap stays tiled, the lowest block stays live. */
  lemma {:induction false} URunKeepsUInv(u: UState, ops: seq<UOp>, v: UState)
    requires UInv(u) && URun(u, ops, v)
    ensures UInv(v)
    ensures v.heap.live == [] ==> v.start == v.end
    decreases |ops|
  {
    if ops == [] {
      if v.heap.live == [] {
        AllFreeIsEmpty(v);
      }
    } else {
      match ops[0] {
        case UOpAlloc(region, size, offset) => UAllocExact(u, region, size, offset);
        case UOpFree(i) => UFreeKeepsUInv(u, i);
      }
      URunKeepsUInv(UStep(u, ops[0]), ops[1..], v);
    }
  }
}
