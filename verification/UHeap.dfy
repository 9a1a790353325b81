/** The external heap as an object: the grow and shrink hooks around the heap. */
module UHeap {
  import opened Basics
  import opened Bits
  import opened FreeList
  import opened HeapState
  import opened HeapLaws
  import opened Heap
  import opened UHeapState

  class UHeap {
    const heap: Heap
    /** Minimum possible start, current start, and end of the heap. */
    var limit: nat
    var start: nat
    var end: nat

    ghost function UState(): UState
      reads this, heap
    {
      UHeapState.UState(heap.State(), limit, start, end)
    }

    ghost predicate Valid()
      reads this, heap
    {
      heap.Valid() && UInv(UState()) && end <= heap.mem.Length
    }

    constructor (mem: array<byte>)
      requires mem.Length <= ADDRESS_LIMIT
      ensures Valid() && fresh(heap) && heap.mem == mem
      ensures UState() == UHeapState.UState(Empty(PAGE), 0, 0, 0)
    {
      PageIsPow2();
      heap := new Heap(PAGE, PAGE, mem);
      limit, start, end := 0, 0, 0;
    }

    /** Move the start of the heap. */
    method Resize(delta: int)
      requires start >= delta
      modifies this`start
      ensures start == old(start) - delta
    {
      start := start - delta;
    }

    /** Choose the region to live in, aligned with the masks of the C code. */
    method FindRegion(region: Region)
      requires region.start + region.size <= SIZE_SPACE
      modifies this`limit, this`start, this`end
      ensures UState() == Find(old(UState()), region.start, region.size)
    {
      PageIsPow2();
      var rend := (region.start + region.size) % SIZE_SPACE;
      MaskMod(rend, PAGE);
      MaskMod((0 - region.start) % SIZE_SPACE, PAGE);
      ModSpace(0 - region.start, PAGE);
      var after := if rend != 0 then And(rend, PAGE - 1) else PAGE;
      var before := And((0 - region.start) % SIZE_SPACE, PAGE - 1);
      if before + after > region.size {
        return;
      }
      limit := region.start + before;
      start := (rend - after) % SIZE_SPACE;
      end := start;
      Resize(0);
    }

    /** The shrink hook: do nothing unless the block given is the lowest in the heap. */
    method ShrinkBy(freeing: Block) returns (shrunk: bool)
      modifies this`start
      ensures shrunk <==> freeing.addr == old(start)
      ensures start == if shrunk then old(start) + freeing.size else old(start)
    {
      if freeing.addr != start {
        return false;
      }
      Resize(0 - freeing.size);
      return true;
    }

    /** The part of the grow hook that finds a region if none is in use yet. */
    method Locate(region: Region)
      requires Valid() && RegionOk(region) && region.start + region.size <= heap.mem.Length
      modifies this`limit, this`start, this`end
      ensures UState() == Located(old(UState()), region)
      ensures Valid()
    {
      LocatedKeepsUInv(UState(), region);
      if limit == end {
        FindAligned(UState(), region.start, region.size);
        FindRegion(region);
      }
    }

    /** The rest of the grow hook: make room below the heap. The shrink hook called meanwhile declines. */
    method GrowHere(size: nat) returns (grown: bool)
      requires Valid() && size > 0 && size % PAGE == 0
      modifies this, heap, heap.mem
      ensures grown <==> Grow(old(UState()), size).Some?
      ensures UState() == if grown then Grow(old(UState()), size).value else old(UState())
      ensures old(start) != size || !grown ==> heap.Valid()
    {
      if size > start - limit {
        return false;
      }
      BelowStart(UState(), size);
      var freeing := heap.PopulateBlock(start - size, size);
      if start - size != 0 {
        var shrunk := ShrinkBy(freeing);
        assert !shrunk;
      }
      Resize(size);
      return true;
    }

    /** The grow hook: make room below the heap for `size` more bytes. */
    method GrowBy(region: Region, size: nat) returns (grown: bool)
      requires Valid() && RegionOk(region) && region.start + region.size <= heap.mem.Length
      requires size > 0 && size % PAGE == 0
      modifies this, heap, heap.mem
      ensures var w := Located(old(UState()), region);
              && UInv(w)
              && (grown <==> Grow(w, size).Some?)
              && UState() == (if grown then Grow(w, size).value else w)
              && (w.start != size || !grown ==> heap.Valid())
      ensures end <= heap.mem.Length
    {
      Locate(region);
      grown := GrowHere(size);
    }

    /** heap_alloc_block() with the grow hook, for memory that does not start at address zero. */
    method AllocBlock(region: Region, size: nat, offset: nat) returns (ptr: Option<nat>)
      requires Valid() && RegionOk(region) && region.start + region.size <= heap.mem.Length
      requires Located(UState(), region).limit > 0
      modifies this, heap, heap.mem
      ensures Valid()
      ensures (UState(), ptr) == UAlloc(old(UState()), region, size, offset)
    {
      PageIsPow2();
      UAllocExact(UState(), region, size, offset);
      ghost var u := UState();
      ghost var first := true;
      while true
        invariant heap.Valid() && end <= heap.mem.Length && heap.align == PAGE
        invariant if first then UState() == u else Grown(UState(), u, region, size, offset)
        decreases first
      {
        AllocFails(heap.State(), size, PAGE, offset);
        ptr := heap.AllocOnce(size, PAGE, offset);
        var r := heap.PrepareRequest(size, PAGE, offset);
        if ptr.Some? || r.actual == 0 {
          return;
        }
        GrowsOnce(u, region, size, offset);
        var grown := GrowBy(region, r.actual);
        if !grown {
          return;
        }
        first := false;
      }
    }

    /** heap_free_block() with the shrink hook. */
    method FreeBlock(ptr: nat, size: nat)
      requires Valid() && (ptr == 0 || Live(ptr, size) in heap.live)
      modifies this, heap, heap.mem
      ensures Valid()
      ensures ptr == 0 ==> UState() == old(UState())
      ensures ptr != 0 ==> UState() == UFree(old(UState()), IndexOf(old(heap.live), Live(ptr, size)))
    {
      if ptr == 0 {
        return;
      }
      ghost var k := IndexOf(heap.live, Live(ptr, size));
      UFreeKeepsUInv(UState(), k);
      FreeTiles(UState(), k);
      ghost var u := UState();
      var freeing, i := heap.FreeBlock(ptr, size);
      FreedIsLowest(u, k, i);
      var shrunk := ShrinkBy(freeing);
      if shrunk {
        heap.blocks := heap.blocks[..i] + heap.blocks[i + 1..];
        heap.freemem := heap.freemem - freeing.size;
      }
      assert UState() == UFree(u, k);
    }
  }
}
