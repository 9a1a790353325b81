/** Allocation with cache discarding, and heap_realloc() with its inline size header. */
module Realloc {
  import opened Basics
  import opened Bits
  import opened FreeList
  import opened HeapState
  import opened HeapLaws
  import opened Heap

  // Live allocations by value.

  lemma {:induction false} RemoveAtMembers<T>(s: seq<T>, i: nat)
    requires i < |s|
    ensures multiset(s) == multiset(RemoveAt(s, i)) + multiset{s[i]}
  {
    assert s == [s[0]] + s[1..];
    if i > 0 {
      RemoveAtMembers(s[1..], i - 1);
    }
  }

  lemma {:induction false} FootCovered(live: seq<Live>, l: Live, align: nat, x: int)
    requires align > 0 && l in live && Footprint(l, align).Has(x)
    ensures Covers(Feet(live, align), x)
  {
    if live[0] != l {
      FootCovered(live[1..], l, align, x);
    }
  }

  lemma {:induction false} FootInside(live: seq<Live>, l: Live, align: nat, hi: nat)
    requires align > 0 && l in live && Below(Feet(live, align), hi)
    ensures Footprint(l, align).End() <= hi
  {
    if live[0] != l {
      FootInside(live[1..], l, align, hi);
    }
  }

  /** A byte of a live allocation is not free. */
  lemma LiveNotFree(s: State, l: Live, x: int)
    requires Inv(s) && l in s.live && Footprint(l, s.align).Has(x)
    ensures !Covers(s.blocks, x)
  {
    FootCovered(s.live, l, s.align, x);
  }

  /** Memory `m'` agrees with memory `m` on the footprint of `l`. */
  ghost predicate SameBytesOf(m: seq<byte>, m': seq<byte>, l: Live, align: nat)
    requires align > 0
  {
    |m| == |m'| && forall x | 0 <= x < |m| && Footprint(l, align).Has(x) :: m[x] == m'[x]
  }

  // Allocation that discards cached allocations when the search fails.

  /** Discard cached allocations one at a time until the request fits or none is left. */
  ghost function AllocCached(s: State, cache: seq<Live>, size: nat, align: nat, offset: nat)
    : (r: (State, Option<nat>, seq<Live>))
    requires s.align > 0
    ensures r.0.align == s.align
    decreases |cache|
  {
    var (t, p) := Alloc(s, size, align, offset);
    if p.Some? || Prepare(s.align, size, align, offset).actual == 0 || cache == [] || cache[0] !in s.live then
      (t, p, cache)
    else
      AllocCached(Free(s, IndexOf(s.live, cache[0])), cache[1..], size, align, offset)
  }

  lemma FreeKeepsOthers(live: seq<Live>, cache: seq<Live>)
    requires cache != [] && multiset(cache) <= multiset(live)
    ensures cache[0] in live
    ensures multiset(cache[1..]) <= multiset(RemoveAt(live, IndexOf(live, cache[0])))
    ensures forall l | l in live && l != cache[0] :: l in RemoveAt(live, IndexOf(live, cache[0]))
  {
    assert cache == [cache[0]] + cache[1..];
    assert multiset(cache) == multiset{cache[0]} + multiset(cache[1..]);
    assert cache[0] in multiset(cache);
    assert cache[0] in multiset(live);
    var i := IndexOf(live, cache[0]);
    RemoveAtMembers(live, i);
    var kept := multiset(RemoveAt(live, i));
    assert multiset(cache[1..]) <= kept by {
      assert multiset(cache[1..]) + multiset{cache[0]} <= kept + multiset{cache[0]};
      assert multiset(cache[1..]) + multiset{cache[0]} - multiset{cache[0]} == multiset(cache[1..]);
      assert kept + multiset{cache[0]} - multiset{cache[0]} == kept;
    }
    forall l | l in live && l != cache[0]
      ensures l in RemoveAt(live, i)
    {
      assert l in multiset(live);
      assert l in multiset(RemoveAt(live, i));
    }
  }

  /** Every allocation of `keep` is live, and memory has not changed on it. */
  ghost predicate Kept(keep: set<Live>, live: seq<Live>, m: seq<byte>, m': seq<byte>, align: nat)
    requires align > 0
  {
    forall l | l in keep :: l in live && SameBytesOf(m, m', l, align)
  }

  lemma KeptTrans(keep: set<Live>, live: seq<Live>, live': seq<Live>, m: seq<byte>, m': seq<byte>, m'': seq<byte>, align: nat)
    requires align > 0 && Kept(keep, live, m, m', align) && Kept(keep, live', m', m'', align)
    ensures Kept(keep, live', m, m'', align)
  {
    forall l | l in keep
      ensures l in live' && SameBytesOf(m, m'', l, align)
    {
      assert SameBytesOf(m, m', l, align) && SameBytesOf(m', m'', l, align);
    }
  }

  ghost function Alive(live: seq<Live>): set<Live> {
    set l | l in live
  }

  /** One search, stated for the allocations already live: they keep their bytes. */
  method AllocStep(h: Heap, size: nat, alignment: nat, offset: nat) returns (ptr: Option<nat>)
    requires h.Valid() && ValidAlign(h.align, alignment)
    modifies h, h.mem
    ensures h.Valid()
    ensures (h.State(), ptr) == Alloc(old(h.State()), size, alignment, offset)
    ensures Kept(Alive(old(h.live)), h.live, old(h.mem[..]), h.mem[..], h.align)
  {
    ghost var s := h.State();
    ghost var m := h.mem[..];
    ptr := h.AllocOnce(size, alignment, offset);
    forall l | l in s.live
      ensures l in h.live && SameBytesOf(m, h.mem[..], l, h.align)
    {
      forall x | 0 <= x < h.mem.Length && Footprint(l, h.align).Has(x)
        ensures h.mem[x] == m[x]
      {
        LiveNotFree(s, l, x);
      }
    }
  }

  /**
    Allocate, discarding cached allocations as needed. Every allocation that is not in
    the cache survives with its bytes intact.
   */
  method AllocBlock(h: Heap, size: nat, alignment: nat, offset: nat, cache: seq<Live>)
    returns (ptr: Option<nat>, rest: seq<Live>)
    requires h.Valid() && ValidAlign(h.align, alignment) && multiset(cache) <= multiset(h.live)
    modifies h, h.mem
    ensures h.Valid()
    ensures (h.State(), ptr, rest) == AllocCached(old(h.State()), cache, size, alignment, offset)
    ensures Kept(Alive(old(h.live)) - Alive(cache), h.live, old(h.mem[..]), h.mem[..], h.align)
    ensures ptr.Some? ==> h.live != [] && forall l | l in Alive(old(h.live)) - Alive(cache) :: l in h.live[1..]
  {
    ghost var keep := Alive(h.live) - Alive(cache);
    ghost var m := h.mem[..];
    rest := cache;
    while true
      invariant h.Valid() && multiset(rest) <= multiset(h.live)
      invariant AllocCached(h.State(), rest, size, alignment, offset)
             == AllocCached(old(h.State()), cache, size, alignment, offset)
      invariant keep !! Alive(rest)
      invariant Kept(keep, h.live, m, h.mem[..], h.align)
      decreases |rest|
    {
      ghost var s, m1 := h.State(), h.mem[..];
      AllocFails(s, size, alignment, offset);
      ptr := AllocStep(h, size, alignment, offset);
      assert Kept(keep, h.live, m1, h.mem[..], h.align);
      KeptTrans(keep, s.live, h.live, m, m1, h.mem[..], h.align);
      var r := h.PrepareRequest(size, alignment, offset);
      if ptr.Some? || r.actual == 0 || rest == [] {
        return;
      }
      FreeKeepsOthers(h.live, rest);
      ghost var m2 := h.mem[..];
      Discard(h, rest[0]);
      assert Kept(keep, h.live, m2, h.mem[..], h.align);
      KeptTrans(keep, s.live, h.live, m, m2, h.mem[..], h.align);
      rest := rest[1..];
    }
  }

  /** Free a live allocation, as a cache discarder does: every other allocation keeps its bytes. */
  method Discard(h: Heap, l: Live)
    requires h.Valid() && l in h.live
    modifies h, h.mem
    ensures h.Valid()
    ensures h.State() == Free(old(h.State()), IndexOf(old(h.live), l))
    ensures Kept(Alive(h.live), h.live, old(h.mem[..]), h.mem[..], h.align)
  {
    assert l.ptr != 0 by {
      FootAbove(h.live, l, h.align);
    }
    var _, _ := h.FreeBlock(l.ptr, l.size);
    forall m, x | m in h.live && Footprint(m, h.align).Has(x)
      ensures !Covers(h.blocks, x)
    {
      LiveNotFree(h.State(), m, x);
    }
  }

  lemma {:induction false} FootAbove(live: seq<Live>, l: Live, align: nat)
    requires align > 0 && l in live && Above(Feet(live, align), 0)
    ensures l.ptr > 0
  {
    if live[0] != l {
      FootAbove(live[1..], l, align);
    }
  }

  // heap_realloc()

  /** Offset of the data within a size-tracked block: the width of its size field. */
  const HEADER: nat := 8

  /** The address that stands for a zero-length allocation. */
  const NOWHERE: nat := SIZE_SPACE - 1

  function FromLE(bs: seq<byte>): nat {
    if bs == [] then 0 else bs[0] + 256 * FromLE(bs[1..])
  }

  function ToLE(n: nat, width: nat): (r: seq<byte>)
    ensures |r| == width
  {
    if width == 0 then [] else [n % 256] + ToLE(n / 256, width - 1)
  }

  lemma {:induction false} LERoundTrip(n: nat, width: nat)
    requires n < Pow2(8 * width)
    ensures FromLE(ToLE(n, width)) == n
  {
    if width > 0 {
      assert Pow2(8 * width) == 256 * Pow2(8 * (width - 1)) by {
        var k := 8 * (width - 1);
        assert Pow2(k + 2) == 4 * Pow2(k) && Pow2(k + 4) == 4 * Pow2(k + 2);
        assert Pow2(k + 6) == 4 * Pow2(k + 4) && Pow2(k + 8) == 4 * Pow2(k + 6);
      }
      LERoundTrip(n / 256, width - 1);
    }
  }

  /** The `n` bytes of memory `m` from address `p`. */
  function Data(m: seq<byte>, p: nat, n: nat): seq<byte>
    requires p + n <= |m|
  {
    m[p..p + n]
  }

  /** The allocation whose size-tracked data is at `ptr`, as recorded in its header. */
  function TrackedLive(m: seq<byte>, ptr: nat): Live
    requires HEADER <= ptr <= |m|
  {
    Live(ptr - HEADER, FromLE(Data(m, ptr - HEADER, HEADER)))
  }

  /** `ptr` was returned by heap_realloc(): its header records the size of a live allocation. */
  ghost predicate Tracked(m: seq<byte>, live: seq<Live>, align: nat, ptr: nat)
    requires align > 0
  {
    && HEADER <= ptr <= |m|
    && var l := TrackedLive(m, ptr);
       && HEADER <= l.size && l in live
       && l.ptr + l.size <= Footprint(l, align).End() <= |m|
  }

  /** Whatever is discarded on the way, a successful allocation is placed, aligned and tracked as promised. */
  lemma {:induction false} CachedSound(s: State, cache: seq<Live>, size: nat, align: nat, offset: nat)
    requires Inv(s) && ValidAlign(s.align, align) && size < SIZE_SPACE
    ensures var (t, p, rest) := AllocCached(s, cache, size, align, offset);
            && Inv(t) && t.align == s.align
            && (p.Some? ==>
                && p.value > 0 && t.live != [] && t.live[0] == Live(p.value, size)
                && p.value % s.align == Prepare(s.align, size, align, offset).want % s.align
                && (align > 0 ==> p.value % align == offset % align)
                && align > 0
                && (p.value + size <= Footprint(t.live[0], s.align).End() <==> size + offset % align % s.align <= SIZE_SPACE))
    decreases |cache|
  {
    var (t, p) := Alloc(s, size, align, offset);
    if p.Some? {
      AllocKeepsInv(s, size, align, offset);
      AllocAligned(s, size, align, offset);
      AllocCoversRequestExactly(s, size, align, offset);
    } else if Prepare(s.align, size, align, offset).actual == 0 || cache == [] || cache[0] !in s.live {
    } else {
      var i := IndexOf(s.live, cache[0]);
      FreeKeepsInv(s, i);
      CachedSound(Free(s, i), cache[1..], size, align, offset);
    }
  }

  // When allocation gives up.

  predicate AnyFits(r: Request, bs: seq<Block>)
    requires r.modulus > 0
  {
    bs != [] && (Fits(r, bs[0]) || AnyFits(r, bs[1..]))
  }

  lemma {:induction false} AnyFitsIndex(r: Request, bs: seq<Block>)
    requires r.modulus > 0
    ensures AnyFits(r, bs) <==> exists i :: 0 <= i < |bs| && Fits(r, bs[i])
  {
    if bs != [] {
      AnyFitsIndex(r, bs[1..]);
      assert forall i | 0 < i < |bs| :: bs[i] == bs[1..][i - 1];
    }
  }

  /** The first place with the right residue is no later than any other. */
  lemma FirstPlace(base: int, a: int, x: int, m: int)
    requires m > 0 && a <= x && (x - base) % m == 0
    ensures a + (base - a) % m <= x
  {
    var pre := (base - a) % m;
    ModUnique(base - a - pre, m, (base - a) / m, 0);
    AddMultiples(x - base, base - a - pre, m);
    if x < a + pre {
      MultiplesApart(x - a - pre, 0, m);
    }
  }

  lemma PlaceMultiple(base: int, a: int, m: int)
    requires m > 0
    ensures (a + (base - a) % m - base) % m == 0
  {
    var d := base - a;
    var q := 0 - d / m;
    assert d % m - d == m * q;
    ModUnique(d % m - d, m, q, 0);
    assert a + d % m - base == d % m - d;
  }

  lemma PlaceNoLater(base: int, a: int, c: int, m: int)
    requires m > 0 && c <= a
    ensures c + (base - c) % m <= a + (base - a) % m
  {
    PlaceMultiple(base, a, m);
    FirstPlace(base, c, a + (base - a) % m, m);
  }

  lemma PreSizeOrder(r: Request, b: Block, c: Block)
    requires r.modulus > 0 && c.addr <= b.addr
    ensures c.addr + PreSize(r, c) <= b.addr + PreSize(r, b)
  {
    PlaceNoLater(r.base, b.addr, c.addr, r.modulus);
  }

  /** What fits in a block fits in a larger one around it. */
  lemma FitsAround(r: Request, b: Block, c: Block)
    requires r.modulus > 0 && Fits(r, b) && c.addr <= b.addr && b.End() <= c.End()
    ensures Fits(r, c)
  {
    PreSizeOrder(r, b, c);
  }

  lemma {:induction false} InsertStillFits(r: Request, bs: seq<Block>, f: Block)
    requires r.modulus > 0 && (AnyFits(r, bs) || Fits(r, f))
    ensures AnyFits(r, Insert(bs, f))
    decreases |bs|
  {
    if bs != [] {
      var b := bs[0];
      if b.End() < f.addr {
        if !Fits(r, b) {
          InsertStillFits(r, bs[1..], f);
        }
      } else if b.End() == f.addr {
        var c := Block(b.addr, b.size + f.size);
        if Fits(r, b) {
          FitsAround(r, b, c);
        } else if Fits(r, f) {
          FitsAround(r, f, c);
        }
        InsertStillFits(r, bs[1..], c);
      } else if f.End() == b.addr {
        var c := Block(f.addr, f.size + b.size);
        if Fits(r, b) {
          FitsAround(r, b, c);
        } else if Fits(r, f) {
          FitsAround(r, f, c);
        }
      }
    }
  }

  /** The heap with the whole cache discarded. */
  ghost function FreeAll(s: State, cache: seq<Live>): State
    requires s.align > 0
    decreases |cache|
  {
    if cache == [] || cache[0] !in s.live then s else FreeAll(Free(s, IndexOf(s.live, cache[0])), cache[1..])
  }

  lemma {:induction false} FreeAllStillFits(r: Request, s: State, cache: seq<Live>)
    requires r.modulus > 0 && s.align > 0 && AnyFits(r, s.blocks)
    ensures AnyFits(r, FreeAll(s, cache).blocks)
    decreases |cache|
  {
    if cache != [] && cache[0] in s.live {
      var i := IndexOf(s.live, cache[0]);
      InsertStillFits(r, s.blocks, Footprint(s.live[i], s.align));
      FreeAllStillFits(r, Free(s, i), cache[1..]);
    }
  }

  /** Allocation gives up if and only if the rounded size is zero or nothing fits even with the whole cache discarded. */
  lemma {:induction false} CachedFails(s: State, cache: seq<Live>, size: nat, align: nat, offset: nat)
    requires s.align > 0
    ensures var r := Prepare(s.align, size, align, offset);
            AllocCached(s, cache, size, align, offset).1.None? <==> r.actual == 0 || !AnyFits(r, FreeAll(s, cache).blocks)
    decreases |cache|
  {
    var r := Prepare(s.align, size, align, offset);
    AllocFails(s, size, align, offset);
    AnyFitsIndex(r, s.blocks);
    if AnyFits(r, s.blocks) {
      FreeAllStillFits(r, s, cache);
    } else if r.actual != 0 && cache != [] && cache[0] in s.live {
      CachedFails(Free(s, IndexOf(s.live, cache[0])), cache[1..], size, align, offset);
    }
  }

  /** Store bytes at `p`. */
  method StoreBytes(mem: array<byte>, p: nat, bytes: seq<byte>)
    requires p + |bytes| <= mem.Length
    modifies mem
    ensures Data(mem[..], p, |bytes|) == bytes
    ensures forall x | 0 <= x < mem.Length && !(p <= x < p + |bytes|) :: mem[x] == old(mem[x])
  {
    var k := 0;
    while k < |bytes|
      invariant 0 <= k <= |bytes|
      invariant forall i | 0 <= i < k :: mem[p + i] == bytes[i]
      invariant forall x | 0 <= x < mem.Length && !(p <= x < p + |bytes|) :: mem[x] == old(mem[x])
    {
      mem[p + k] := bytes[k];
      k := k + 1;
    }
  }

  /** Store the size header of the block at `p`. */
  method StoreHeader(mem: array<byte>, p: nat, total: nat)
    requires total < SIZE_SPACE && p + HEADER <= mem.Length
    modifies mem
    ensures TrackedLive(mem[..], p + HEADER) == Live(p, total)
    ensures forall x | 0 <= x < mem.Length && !(p <= x < p + HEADER) :: mem[x] == old(mem[x])
  {
    SizeSpaceIsPow2();
    LERoundTrip(total, HEADER);
    StoreBytes(mem, p, ToLE(total, HEADER));
  }

  /** memcpy() between disjoint ranges. */
  method CopyBytes(mem: array<byte>, to: nat, from: nat, n: nat)
    requires to + n <= mem.Length && from + n <= mem.Length
    requires to + n <= from || from + n <= to
    modifies mem
    ensures Data(mem[..], to, n) == Data(old(mem[..]), from, n)
    ensures forall x | 0 <= x < mem.Length && !(to <= x < to + n) :: mem[x] == old(mem[x])
  {
    var k := 0;
    while k < n
      invariant 0 <= k <= n
      invariant mem[to..to + k] == old(mem[from..from + k])
      invariant forall x | 0 <= x < mem.Length && !(to <= x < to + n) :: mem[x] == old(mem[x])
    {
      mem[to + k] := mem[from + k];
      k := k + 1;
    }
  }

  /** A write inside the footprint of the newest allocation leaves every other allocation alone. */
  lemma WriteKeeps(s: State, m: seq<byte>, m': seq<byte>, l: Live)
    requires Inv(s) && s.live != [] && l in s.live[1..] && |m| == |m'|
    requires forall x | 0 <= x < |m| && !Footprint(s.live[0], s.align).Has(x) :: m[x] == m'[x]
    ensures SameBytesOf(m, m', l, s.align)
  {
    var j :| 0 <= j < |s.live| - 1 && s.live[1..][j] == l;
    FeetDisjoint(s.live, s.align);
    assert Footprint(s.live[0], s.align).Disjoint(Footprint(s.live[j + 1], s.align));
  }

  /** Offset of size-tracked blocks within a heap alignment unit. */
  function TrackedOffset(align: nat, ptrAlign: nat): nat
    requires align > 0 && ptrAlign > 0
  {
    ((SIZE_SPACE - HEADER) % ptrAlign) % align
  }

  /** What the allocation of a size-tracked block gives: alignment of the data, and room for it. */
  lemma TrackedPlacement(s: State, cache: seq<Live>, newSize: nat, ptrAlign: nat)
    requires Inv(s) && ValidAlign(s.align, ptrAlign) && ptrAlign > 0
    requires newSize + HEADER < SIZE_SPACE && newSize + HEADER + TrackedOffset(s.align, ptrAlign) <= SIZE_SPACE
    ensures var (t, p, rest) := AllocCached(s, cache, newSize + HEADER, ptrAlign, SIZE_SPACE - HEADER);
            && Inv(t) && t.align == s.align
            && (p.Some? ==>
                && p.value > 0 && t.live != [] && t.live[0] == Live(p.value, newSize + HEADER)
                && (p.value + HEADER) % ptrAlign == 0
                && p.value + HEADER + newSize <= Footprint(t.live[0], s.align).End())
  {
    CachedSound(s, cache, newSize + HEADER, ptrAlign, SIZE_SPACE - HEADER);
    var (t, p, rest) := AllocCached(s, cache, newSize + HEADER, ptrAlign, SIZE_SPACE - HEADER);
    if p.Some? {
      HeaderAligned(p.value, ptrAlign);
    }
  }

  /** After a header that ends at an aligned address comes aligned data. */
  lemma HeaderAligned(p: nat, ptrAlign: nat)
    requires IsPow2(ptrAlign) && ptrAlign < SIZE_SPACE && p % ptrAlign == (SIZE_SPACE - HEADER) % ptrAlign
    ensures (p + HEADER) % ptrAlign == 0
  {
    SameResidue(p, SIZE_SPACE - HEADER, HEADER, ptrAlign);
    SizeSpaceIsPow2();
    var k: nat :| ptrAlign == Pow2(k);
    Pow2Strict(64, k);
    Pow2Grows(k, 64);
  }

  /** The allocation behind a pointer given to heap_realloc(), if there is one. */
  ghost function OldLive(m: seq<byte>, ptr: nat): Option<Live>
    requires ptr == 0 || ptr == NOWHERE || HEADER <= ptr <= |m|
  {
    if ptr == 0 || ptr == NOWHERE then None else Some(TrackedLive(m, ptr))
  }

  /** Where the data of a new size-tracked block lies, or zero if there is no memory even without the cache. */
  ghost function NewData(s: State, cache: seq<Live>, newSize: nat, ptrAlign: nat): nat
    requires s.align > 0
  {
    var (_, p, _) := AllocCached(s, cache, newSize + HEADER, ptrAlign, SIZE_SPACE - HEADER);
    if p.None? then 0 else p.value + HEADER
  }

  /** Allocate a size-tracked block and store its header; zero stands for failure. */
  method NewBlock(h: Heap, newSize: nat, cache: seq<Live>) returns (newPtr: nat, rest: seq<Live>)
    requires h.Valid() && multiset(cache) <= multiset(h.live)
    requires newSize + HEADER < SIZE_SPACE && newSize + HEADER + TrackedOffset(h.align, h.ptrAlign) <= SIZE_SPACE
    modifies h, h.mem
    ensures h.Valid()
    ensures newPtr == NewData(old(h.State()), cache, newSize, h.ptrAlign)
    ensures newPtr != 0 ==>
              && newPtr % h.ptrAlign == 0 && h.live != []
              && Tracked(h.mem[..], h.live, h.align, newPtr)
              && TrackedLive(h.mem[..], newPtr) == h.live[0] == Live(newPtr - HEADER, newSize + HEADER)
              && forall l | l in Alive(old(h.live)) - Alive(cache) :: l in h.live[1..]
    ensures Kept(Alive(old(h.live)) - Alive(cache), h.live, old(h.mem[..]), h.mem[..], h.align)
  {
    ghost var keep := Alive(h.live) - Alive(cache);
    ghost var m := h.mem[..];
    TrackedPlacement(h.State(), cache, newSize, h.ptrAlign);
    var p;
    p, rest := AllocBlock(h, newSize + HEADER, h.ptrAlign, SIZE_SPACE - HEADER, cache);
    if p.None? {
      return 0, rest;
    }
    ghost var m1 := h.mem[..];
    FootInside(h.live, h.live[0], h.align, h.mem.Length);
    StoreHeader(h.mem, p.value, newSize + HEADER);
    newPtr := p.value + HEADER;
    forall l | l in keep
      ensures SameBytesOf(m1, h.mem[..], l, h.align)
    {
      WriteKeeps(h.State(), m1, h.mem[..], l);
    }
    KeptTrans(keep, h.live, h.live, m, m1, h.mem[..], h.align);
  }

  function Min(a: int, b: int): int {
    if a < b then a else b
  }

  lemma NewestApart(s: State, l: Live)
    requires Inv(s) && s.live != [] && l in s.live[1..]
    ensures Footprint(s.live[0], s.align).Disjoint(Footprint(l, s.align))
    ensures l != s.live[0]
  {
    var j :| 0 <= j < |s.live| - 1 && s.live[1..][j] == l;
    FeetDisjoint(s.live, s.align);
    FootOfIndex(s.live, s.align, 0);
    assert s.live[j + 1] == l;
  }

  /** The allocation tracked at `ptr` keeps its header and its data when its bytes are kept. */
  lemma StillTracked(m: seq<byte>, m': seq<byte>, ptr: nat, align: nat)
    requires align > 0 && HEADER <= ptr <= |m| && SameBytesOf(m, m', TrackedLive(m, ptr), align)
    requires var l := TrackedLive(m, ptr); HEADER <= l.size && l.ptr + l.size <= Footprint(l, align).End() <= |m|
    ensures TrackedLive(m', ptr) == TrackedLive(m, ptr)
    ensures forall n: nat | HEADER + n <= TrackedLive(m, ptr).size :: Data(m', ptr, n) == Data(m, ptr, n)
  {
    assert Data(m', ptr - HEADER, HEADER) == Data(m, ptr - HEADER, HEADER);
  }

  /** The data common to the old block and the new. */
  ghost predicate DataMoved(m: seq<byte>, m': seq<byte>, oldPtr: nat, newPtr: nat, newSize: nat)
    requires HEADER <= oldPtr <= |m| && newPtr <= |m'|
  {
    var n := Min(TrackedLive(m, oldPtr).size - HEADER, newSize);
    0 <= n && oldPtr + n <= |m| && newPtr + n <= |m'| && Data(m', newPtr, n) == Data(m, oldPtr, n)
  }

  /** The old block may be read after other memory has changed. */
  lemma DataMovedFrom(m: seq<byte>, m1: seq<byte>, m2: seq<byte>, oldPtr: nat, newPtr: nat, newSize: nat, align: nat)
    requires align > 0 && HEADER <= oldPtr <= |m| == |m1| && newPtr <= |m2|
    requires Tracked(m, [TrackedLive(m, oldPtr)], align, oldPtr)
    requires SameBytesOf(m, m1, TrackedLive(m, oldPtr), align) && DataMoved(m1, m2, oldPtr, newPtr, newSize)
    ensures DataMoved(m, m2, oldPtr, newPtr, newSize)
  {
    StillTracked(m, m1, oldPtr, align);
  }

  /** Copy the part common to an old size-tracked block and the newest one. */
  method CopyData(h: Heap, oldPtr: nat, newPtr: nat, newSize: nat)
    requires h.Valid() && Tracked(h.mem[..], h.live, h.align, oldPtr) && Tracked(h.mem[..], h.live, h.align, newPtr)
    requires h.live != [] && TrackedLive(h.mem[..], oldPtr) in h.live[1..]
    requires TrackedLive(h.mem[..], newPtr) == h.live[0] == Live(newPtr - HEADER, newSize + HEADER)
    modifies h.mem
    ensures h.Valid()
    ensures TrackedLive(h.mem[..], newPtr) == h.live[0]
    ensures DataMoved(old(h.mem[..]), h.mem[..], oldPtr, newPtr, newSize)
    ensures Kept(Alive(h.live[1..]), h.live, old(h.mem[..]), h.mem[..], h.align)
  {
    ghost var l, m := TrackedLive(h.mem[..], oldPtr), h.mem[..];
    NewestApart(h.State(), l);
    var oldSize := TrackedLive(h.mem[..], oldPtr).size - HEADER;
    var n := Min(oldSize, newSize);
    CopyBytes(h.mem, newPtr, oldPtr, n);
    Copied(m, h.mem[..], oldPtr, newPtr, newSize, n);
    CopyKeeps(h.State(), m, h.mem[..], newPtr, n);
  }

  lemma Copied(m: seq<byte>, m': seq<byte>, oldPtr: nat, newPtr: nat, newSize: nat, n: nat)
    requires HEADER <= oldPtr <= |m| == |m'| && HEADER <= newPtr && oldPtr + n <= |m| && newPtr + n <= |m|
    requires n == Min(TrackedLive(m, oldPtr).size - HEADER, newSize)
    requires Data(m', newPtr, n) == Data(m, oldPtr, n)
    requires forall x | 0 <= x < |m| && !(newPtr <= x < newPtr + n) :: m'[x] == m[x]
    ensures TrackedLive(m', newPtr) == TrackedLive(m, newPtr)
    ensures DataMoved(m, m', oldPtr, newPtr, newSize)
  {
    assert Data(m', newPtr - HEADER, HEADER) == Data(m, newPtr - HEADER, HEADER);
  }

  /** Writing within the newest allocation keeps the others. */
  lemma CopyKeeps(s: State, m: seq<byte>, m': seq<byte>, at: nat, n: nat)
    requires Inv(s) && s.live != [] && |m| == |m'|
    requires Footprint(s.live[0], s.align).addr <= at && at + n <= Footprint(s.live[0], s.align).End()
    requires forall x | 0 <= x < |m| && !(at <= x < at + n) :: m'[x] == m[x]
    ensures Kept(Alive(s.live[1..]), s.live, m, m', s.align)
  {
    forall k | k in Alive(s.live[1..])
      ensures k in s.live && SameBytesOf(m, m', k, s.align)
    {
      WriteKeeps(s, m, m', k);
    }
  }

  lemma OthersStay(live: seq<Live>, l: Live)
    requires l in live
    ensures forall k | k in live && k != l :: k in RemoveAt(live, IndexOf(live, l))
  {
    var i := IndexOf(live, l);
    RemoveAtMembers(live, i);
    forall k | k in live && k != l
      ensures k in RemoveAt(live, i)
    {
      assert k in multiset(live);
      assert k in multiset(RemoveAt(live, i));
    }
  }

  /** Free the old block once its data has been copied to the newest one. */
  method CopyAndFree(h: Heap, oldPtr: nat, newPtr: nat, newSize: nat)
    requires h.Valid() && Tracked(h.mem[..], h.live, h.align, oldPtr) && Tracked(h.mem[..], h.live, h.align, newPtr)
    requires h.live != [] && TrackedLive(h.mem[..], oldPtr) in h.live[1..]
    requires TrackedLive(h.mem[..], newPtr) == h.live[0] == Live(newPtr - HEADER, newSize + HEADER)
    modifies h, h.mem
    ensures h.Valid()
    ensures h.State() == Free(old(h.State()), IndexOf(old(h.live), TrackedLive(old(h.mem[..]), oldPtr)))
    ensures Tracked(h.mem[..], h.live, h.align, newPtr) && TrackedLive(h.mem[..], newPtr) == old(h.live[0])
    ensures DataMoved(old(h.mem[..]), h.mem[..], oldPtr, newPtr, newSize)
    ensures Kept(Alive(old(h.live[1..])) - {TrackedLive(old(h.mem[..]), oldPtr)},
                 h.live, old(h.mem[..]), h.mem[..], h.align)
  {
    ghost var m, live, l := h.mem[..], h.live, TrackedLive(h.mem[..], oldPtr);
    NewestApart(h.State(), l);
    OthersStay(live, l);
    var block := TrackedLive(h.mem[..], oldPtr);
    CopyData(h, oldPtr, newPtr, newSize);
    ghost var m1 := h.mem[..];
    Discard(h, block);
    StillTracked(m1, h.mem[..], newPtr, h.align);
    ghost var n := Min(l.size - HEADER, newSize);
    assert Data(h.mem[..], newPtr, n) == Data(m1, newPtr, n);
    ghost var others := Alive(live[1..]) - {l};
    assert Kept(others, live, m, m1, h.align);
    assert Kept(others, h.live, m1, h.mem[..], h.align);
    KeptTrans(others, live, h.live, m, m1, h.mem[..], h.align);
  }

  lemma RemovedIsGone(s: State, l: Live)
    requires Inv(s) && l in s.live
    ensures l !in RemoveAt(s.live, IndexOf(s.live, l))
  {
    RemovedNotSame(s.live, l, s.align);
  }

  lemma RemovedNotSame(live: seq<Live>, l: Live, align: nat)
    requires align > 0 && l in live && Apart(Feet(live, align)) && NonEmpty(Feet(live, align))
    ensures l !in RemoveAt(live, IndexOf(live, l))
  {
    var i := IndexOf(live, l);
    FeetDisjoint(live, align);
    RemovedElsewhere(live, i);
    forall j | 0 <= j < |live| && j != i
      ensures live[j] != l
    {
      FootOfIndex(live, align, i);
      FootOfIndex(live, align, j);
    }
  }

  lemma {:induction false} RemovedElsewhere<T>(s: seq<T>, i: nat)
    requires i < |s|
    ensures forall x | x in RemoveAt(s, i) :: exists j :: 0 <= j < |s| && j != i && s[j] == x
  {
    forall x | x in RemoveAt(s, i)
      ensures exists j :: 0 <= j < |s| && j != i && s[j] == x
    {
      if i == 0 {
        var j :| 0 <= j < |s| - 1 && s[1..][j] == x;
        assert s[j + 1] == x;
      } else if x != s[0] {
        RemovedElsewhere(s[1..], i - 1);
        assert x in RemoveAt(s[1..], i - 1);
        var j :| 0 <= j < |s| - 1 && j != i - 1 && s[1..][j] == x;
        assert s[j + 1] == x;
      }
    }
  }

  /** Free a size-tracked block, if there is one: heap_realloc() to size zero. */
  method FreeTracked(h: Heap, oldPtr: nat)
    requires h.Valid() && (oldPtr == 0 || oldPtr == NOWHERE || Tracked(h.mem[..], h.live, h.align, oldPtr))
    modifies h, h.mem
    ensures h.Valid()
    ensures Moved(OldLive(old(h.mem[..]), oldPtr), NOWHERE) !! Alive(h.live)
    ensures Kept(Alive(old(h.live)) - Moved(OldLive(old(h.mem[..]), oldPtr), NOWHERE),
                 h.live, old(h.mem[..]), h.mem[..], h.align)
  {
    if oldPtr != 0 && oldPtr != NOWHERE {
      var block := TrackedLive(h.mem[..], oldPtr);
      OthersStay(h.live, block);
      RemovedIsGone(h.State(), block);
      Discard(h, block);
    }
  }

  /** A new block of `newSize` bytes at `ptr`, aligned and tracked. */
  ghost predicate NewTracked(m: seq<byte>, live: seq<Live>, align: nat, ptrAlign: nat, ptr: nat, newSize: nat)
    requires align > 0 && ptrAlign > 0
  {
    ptr % ptrAlign == 0 && Tracked(m, live, align, ptr) && TrackedLive(m, ptr) == Live(ptr - HEADER, newSize + HEADER)
  }

  /** The part of heap_realloc() that follows the allocation: copy the data and free the old block. */
  method MoveOld(h: Heap, oldPtr: nat, newPtr: nat, newSize: nat, ghost keep: set<Live>, ghost m: seq<byte>)
    requires h.Valid() && h.live != [] && |m| == h.mem.Length
    requires HEADER <= oldPtr <= |m| && TrackedLive(m, oldPtr) in keep && Tracked(m, [TrackedLive(m, oldPtr)], h.align, oldPtr)
    requires NewTracked(h.mem[..], h.live, h.align, h.ptrAlign, newPtr, newSize) && TrackedLive(h.mem[..], newPtr) == h.live[0]
    requires Kept(keep, h.live, m, h.mem[..], h.align) && (forall l | l in keep :: l in h.live[1..])
    modifies h, h.mem
    ensures h.Valid()
    ensures NewTracked(h.mem[..], h.live, h.align, h.ptrAlign, newPtr, newSize)
    ensures DataMoved(m, h.mem[..], oldPtr, newPtr, newSize)
    ensures TrackedLive(m, oldPtr) !in h.live
    ensures Kept(keep - {TrackedLive(m, oldPtr)}, h.live, m, h.mem[..], h.align)
  {
    ghost var l, m1, live1 := TrackedLive(m, oldPtr), h.mem[..], h.live;
    StillTracked(m, m1, oldPtr, h.align);
    RemovedIsGone(h.State(), l);
    CopyAndFree(h, oldPtr, newPtr, newSize);
    DataMovedFrom(m, m1, h.mem[..], oldPtr, newPtr, newSize, h.align);
    assert Kept(keep - {l}, h.live, m1, h.mem[..], h.align);
    KeptTrans(keep - {l}, live1, h.live, m, m1, h.mem[..], h.align);
  }

  /** Move a size-tracked block, if there is one, to a new block of `newSize` bytes. */
  method Resize(h: Heap, oldPtr: nat, newSize: nat, cache: seq<Live>) returns (newPtr: nat, rest: seq<Live>)
    requires h.Valid() && multiset(cache) <= multiset(h.live)
    requires oldPtr == 0 || oldPtr == NOWHERE || Tracked(h.mem[..], h.live, h.align, oldPtr)
    requires OldLive(h.mem[..], oldPtr).Some? ==> OldLive(h.mem[..], oldPtr).value !in cache
    requires newSize + HEADER < SIZE_SPACE && newSize + HEADER + TrackedOffset(h.align, h.ptrAlign) <= SIZE_SPACE
    requires newSize > 0
    modifies h, h.mem
    ensures h.Valid()
    ensures newPtr == NewData(old(h.State()), cache, newSize, h.ptrAlign)
    ensures newPtr != 0 ==> NewTracked(h.mem[..], h.live, h.align, h.ptrAlign, newPtr, newSize)
    ensures newPtr != 0 && OldLive(old(h.mem[..]), oldPtr).Some? ==>
              DataMoved(old(h.mem[..]), h.mem[..], oldPtr, newPtr, newSize)
    ensures Moved(OldLive(old(h.mem[..]), oldPtr), newPtr) !! Alive(h.live)
    ensures Kept(Alive(old(h.live)) - Alive(cache) - Moved(OldLive(old(h.mem[..]), oldPtr), newPtr),
                 h.live, old(h.mem[..]), h.mem[..], h.align)
  {
    ghost var keep, m := Alive(h.live) - Alive(cache), h.mem[..];
    newPtr, rest := NewBlock(h, newSize, cache);
    if newPtr == 0 || oldPtr == 0 || oldPtr == NOWHERE {
      return;
    }
    MoveOld(h, oldPtr, newPtr, newSize, keep, m);
  }

  /**
    heap_realloc(): on failure nothing but the cache is touched; on success the data is
    aligned, tracked, and starts with the old contents, and the old block is free. No byte
    of any other allocation outside the cache changes.
   */
  method ReallocBlock(h: Heap, oldPtr: nat, newSize: nat, cache: seq<Live>) returns (newPtr: nat, rest: seq<Live>)
    requires h.Valid() && multiset(cache) <= multiset(h.live)
    requires oldPtr == 0 || oldPtr == NOWHERE || Tracked(h.mem[..], h.live, h.align, oldPtr)
    requires OldLive(h.mem[..], oldPtr).Some? ==> OldLive(h.mem[..], oldPtr).value !in cache
    requires newSize < SIZE_SPACE
    requires newSize + HEADER < SIZE_SPACE ==> newSize + HEADER + TrackedOffset(h.align, h.ptrAlign) <= SIZE_SPACE
    modifies h, h.mem
    ensures h.Valid()
    ensures newPtr == if newSize == 0 then NOWHERE
                      else if newSize + HEADER >= SIZE_SPACE then 0
                      else NewData(old(h.State()), cache, newSize, h.ptrAlign)
    ensures newSize > 0 && newPtr != 0 ==> NewTracked(h.mem[..], h.live, h.align, h.ptrAlign, newPtr, newSize)
    ensures newSize > 0 && newPtr != 0 && OldLive(old(h.mem[..]), oldPtr).Some? ==>
              DataMoved(old(h.mem[..]), h.mem[..], oldPtr, newPtr, newSize)
    ensures Moved(OldLive(old(h.mem[..]), oldPtr), newPtr) !! Alive(h.live)
    ensures Kept(Alive(old(h.live)) - Alive(cache) - Moved(OldLive(old(h.mem[..]), oldPtr), newPtr),
                 h.live, old(h.mem[..]), h.mem[..], h.align)
  {
    rest := cache;
    if newSize == 0 {
      newPtr := NOWHERE;
      FreeTracked(h, oldPtr);
    } else if newSize + HEADER >= SIZE_SPACE {
      newPtr := 0;
    } else {
      newPtr, rest := Resize(h, oldPtr, newSize, cache);
    }
  }

  /** The allocation that a successful heap_realloc() replaces. */
  ghost function Moved(old_: Option<Live>, newPtr: nat): set<Live> {
    if newPtr == 0 || old_.None? then {} else {old_.value}
  }
}
