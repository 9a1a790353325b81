/** The allocator as a transition system on values: requests, footprints, invariant, runs. */
module HeapState {
  import opened Basics
  import opened Bits
  import opened FreeList

  /** `size_t` has 64 bits. */
  const SIZE_SPACE: nat := 0x1_0000_0000_0000_0000

  /** All heap memory lies below this address, so that signed address differences do not wrap. */
  const ADDRESS_LIMIT: nat := 0x8000_0000_0000_0000

  lemma SizeSpaceIsPow2()
    ensures SIZE_SPACE == Pow2(64)
  {
    assert Pow2(8) == 256;
    assert Pow2(16) == 0x1_0000 by { assert Pow2(12) == 4096; }
    assert Pow2(24) == 0x100_0000 by { assert Pow2(20) == 0x10_0000; }
    assert Pow2(32) == 0x1_0000_0000 by { assert Pow2(28) == 0x1000_0000; }
    assert Pow2(40) == 0x100_0000_0000 by { assert Pow2(36) == 0x10_0000_0000; }
    assert Pow2(48) == 0x1_0000_0000_0000 by { assert Pow2(44) == 0x1000_0000_0000; }
    assert Pow2(56) == 0x100_0000_0000_0000 by { assert Pow2(52) == 0x10_0000_0000_0000; }
    assert Pow2(60) == 0x1000_0000_0000_0000;
  }

  /** An allocation handed to a caller, as the caller will name it when freeing it. */
  datatype Live = Live(ptr: nat, size: nat)

  // Rounding.

  /** `n` rounded up to a multiple of `align`, in `size_t` arithmetic. */
  function RoundUp(n: nat, align: nat): nat
    requires align > 0
  {
    var v := (n + align - 1) % SIZE_SPACE;
    v - v % align
  }

  /** The free-list block that backs an allocation: what freeing it will give back. */
  function Footprint(l: Live, align: nat): Block
    requires align > 0
  {
    var sub := l.ptr % align;
    Block(l.ptr - sub, RoundUp(l.size + sub, align))
  }

  lemma RoundUpFacts(n: nat, align: nat)
    requires 0 < align < SIZE_SPACE
    ensures RoundUp(n, align) % align == 0
    ensures n + align - 1 < SIZE_SPACE ==> n <= RoundUp(n, align) < n + align
  {
    var v := (n + align - 1) % SIZE_SPACE;
    RoundDown(v, align);
    if n + align - 1 < SIZE_SPACE {
      ModUnique(n + align - 1, SIZE_SPACE, 0, n + align - 1);
    }
  }

  /**
    The overflow check: a rounded size of zero is taken to mean that the sum wrapped.
    It catches every wrap (the rounded size is zero or no smaller than `n`) exactly
    when `n` itself still fits the address space.
   */
  lemma OverflowCheckExact(n: nat, align: nat)
    requires align > 1 && 4 * align <= SIZE_SPACE && n < SIZE_SPACE + align
    ensures RoundUp(n, align) == 0 || n <= RoundUp(n, align) <==> n <= SIZE_SPACE
  {
    var t := n + align - 1;
    RoundDown(t % SIZE_SPACE, align);
    if t >= SIZE_SPACE {
      ModUnique(t, SIZE_SPACE, 1, t - SIZE_SPACE);
      var w := t - SIZE_SPACE;
      if w < align {
        ModUnique(w, align, 0, w);
      } else {
        assert w - w % align <= w < n;
      }
    } else {
      ModUnique(t, SIZE_SPACE, 0, t);
    }
  }

  // A request, with the values heap_alloc_block() derives from it before searching.

  /**
    `want` is the offset within the requested alignment, `base` its heap-aligned part,
    `actual` the rounded size, `modulus` the coarser of the two alignments.
   */
  datatype Request = Request(want: nat, base: nat, actual: nat, modulus: nat)

  /** The alignment a request stands for: zero acts as the whole address space. */
  function Effective(align: nat): nat {
    if align == 0 then SIZE_SPACE else align
  }

  function Prepare(heapAlign: nat, size: nat, align: nat, offset: nat): Request
    requires heapAlign > 0
  {
    var want := if align == 0 then 0 else offset % align;
    Request(want,
            want - want % heapAlign,
            RoundUp(size + want % heapAlign, heapAlign),
            if Effective(align) >= heapAlign then Effective(align) else heapAlign)
  }

  ghost predicate ValidAlign(heapAlign: nat, align: nat) {
    && IsPow2(heapAlign) && 1 < heapAlign < SIZE_SPACE
    && (align == 0 || (IsPow2(align) && align < SIZE_SPACE))
  }

  lemma MaskMod(x: nat, a: nat)
    requires IsPow2(a)
    ensures And(x, a - 1) == x % a && AndNot(x, a - 1) == x - x % a
  {
    var k: nat :| a == Pow2(k);
    AndMask(x, k);
    AndNotMask(x, k);
  }

  /** Of two powers of two, the greater is a multiple of both, and its mask is the union of theirs. */
  lemma CoarserPow2(a: nat, b: nat)
    requires IsPow2(a) && IsPow2(b)
    ensures var m := if a >= b then a else b;
            m % a == 0 && m % b == 0 && Or(a - 1, b - 1) == m - 1
  {
    var j: nat :| a == Pow2(j);
    var k: nat :| b == Pow2(k);
    var c := if j <= k then k else j;
    Pow2Grows(j, c);
    Pow2Grows(k, c);
    Pow2Strict(j, k);
    Pow2Strict(k, j);
    OrMasks(j, k);
  }

  lemma EffectivePow2(heapAlign: nat, align: nat)
    requires ValidAlign(heapAlign, align)
    ensures IsPow2(Effective(align))
  {
    SizeSpaceIsPow2();
  }

  /** The mask expressions of the C code compute the offsets and size of `Prepare`. */
  lemma PrepareBits(heapAlign: nat, size: nat, align: nat, offset: nat)
    requires ValidAlign(heapAlign, align)
    ensures var r := Prepare(heapAlign, size, align, offset);
            && r.want == (if align == 0 then 0 else And(offset, align - 1))
            && r.base == AndNot(r.want, heapAlign - 1)
            && r.actual == AndNot((size + r.want - r.base + heapAlign - 1) % SIZE_SPACE, heapAlign - 1)
  {
    var r := Prepare(heapAlign, size, align, offset);
    if align != 0 {
      MaskMod(offset, align);
    }
    MaskMod(r.want, heapAlign);
    MaskMod((size + r.want - r.base + heapAlign - 1) % SIZE_SPACE, heapAlign);
  }

  /** The mask of the C code is one less than the modulus of `Prepare`. */
  lemma MaskBits(heapAlign: nat, align: nat)
    requires ValidAlign(heapAlign, align)
    ensures var m := if Effective(align) >= heapAlign then Effective(align) else heapAlign;
            Or((align - 1) % SIZE_SPACE, heapAlign - 1) + 1 == m && IsPow2(m) && m <= SIZE_SPACE
  {
    EffectivePow2(heapAlign, align);
    CoarserPow2(Effective(align), heapAlign);
    assert (align - 1) % SIZE_SPACE == Effective(align) - 1 by {
      if align == 0 {
        ModUnique(-1, SIZE_SPACE, -1, SIZE_SPACE - 1);
      } else {
        ModUnique(align - 1, SIZE_SPACE, 0, align - 1);
      }
    }
  }

  // Searching.

  /** Bytes to skip at the start of a block to reach the requested alignment. */
  function PreSize(r: Request, b: Block): nat
    requires r.modulus > 0
  {
    (r.base - b.addr) % r.modulus
  }

  /** `( actual_offset - block ) & align_mask` computes `PreSize`. */
  lemma PreSizeBits(r: Request, b: Block)
    requires IsPow2(r.modulus) && r.modulus <= SIZE_SPACE
    ensures PreSize(r, b) == And((r.base - b.addr) % SIZE_SPACE, r.modulus - 1)
  {
    MaskMod((r.base - b.addr) % SIZE_SPACE, r.modulus);
    ModSpace(r.base - b.addr, r.modulus);
  }

  predicate Fits(r: Request, b: Block)
    requires r.modulus > 0
  {
    PreSize(r, b) <= b.size && r.actual <= b.size - PreSize(r, b)
  }

  /** Index of the first block that fits, or the length of the list. */
  function FirstFit(r: Request, bs: seq<Block>): (k: nat)
    requires r.modulus > 0
    ensures k <= |bs|
    ensures k < |bs| ==> Fits(r, bs[k])
    ensures forall i | 0 <= i < k :: !Fits(r, bs[i])
  {
    if bs == [] || Fits(r, bs[0]) then 0
    else
      var k := FirstFit(r, bs[1..]);
      assert forall i | 0 < i < |bs| :: bs[i] == bs[1..][i - 1];
      k + 1
  }

  /** Reducing modulo the address space first does not disturb a narrower power of two. */
  lemma ModSpace(d: int, m: nat)
    requires IsPow2(m) && m <= SIZE_SPACE
    ensures (d % SIZE_SPACE) % m == d % m
  {
    SizeSpaceIsPow2();
    var k: nat :| m == Pow2(k);
    Pow2Strict(64, k);
    Pow2Grows(k, 64);
    ModOfMod(d, SIZE_SPACE, m);
  }

  /** `x + ( y - x ) mod m` has the residue of `y` modulo every divisor `e` of `m`. */
  lemma AlignForward(x: int, y: int, m: int, e: int)
    requires m > 0 && e > 0 && m % e == 0
    ensures (x + (y - x) % m) % e == y % e
  {
    var d := y - x;
    var w := m * (d / m);
    assert x + d % m == y - w;
    ModUnique(w, m, d / m, 0);
    ModOfMod(w, m, e);
    ModUnique(0, e, 0, 0);
    ModAddMultiple(y, w, e);
  }

  // The state of a heap, its invariant, and its operations.

  datatype State = State(
    align: nat,
    blocks: seq<Block>,
    freemem: int,
    usedmem: int,
    maxused: int,
    live: seq<Live>)

  /** The blocks that back the live allocations. */
  function Feet(live: seq<Live>, align: nat): seq<Block>
    requires align > 0
  {
    if live == [] then [] else [Footprint(live[0], align)] + Feet(live[1..], align)
  }

  predicate Below(bs: seq<Block>, hi: int) {
    bs == [] || (bs[0].End() <= hi && Below(bs[1..], hi))
  }

  predicate NonEmpty(bs: seq<Block>) {
    bs == [] || (bs[0].size > 0 && NonEmpty(bs[1..]))
  }

  /** No byte is in both lists. */
  ghost predicate NoByteShared(a: seq<Block>, b: seq<Block>) {
    forall x :: !(Covers(a, x) && Covers(b, x))
  }

  /** No byte is in two blocks of the list. */
  ghost predicate Apart(fs: seq<Block>) {
    fs == [] || (NoByteShared([fs[0]], fs[1..]) && Apart(fs[1..]))
  }

  /** The free list is canonical, aligned, and within memory; no block is at the null address. */
  ghost predicate FreeSound(bs: seq<Block>, align: nat)
    requires align > 0
  {
    Canonical(bs) && AlignedTo(bs, align) && Above(bs, 0) && Below(bs, ADDRESS_LIMIT)
  }

  /** Footprints are non-empty, aligned, within memory, and share no byte. */
  ghost predicate LiveSound(fs: seq<Block>, align: nat)
    requires align > 0
  {
    Apart(fs) && NonEmpty(fs) && AlignedTo(fs, align) && Above(fs, 0) && Below(fs, ADDRESS_LIMIT)
  }

  /** The free list is sound, live allocations are sound, no byte is both, and the counters agree. */
  ghost predicate Inv(s: State) {
    && IsPow2(s.align) && 1 < s.align && 4 * s.align <= SIZE_SPACE
    && FreeSound(s.blocks, s.align)
    && LiveSound(Feet(s.live, s.align), s.align)
    && NoByteShared(s.blocks, Feet(s.live, s.align))
    && s.freemem == Total(s.blocks)
    && s.usedmem == Total(Feet(s.live, s.align))
    && s.usedmem <= s.maxused
  }

  /** `taken` bytes after the first `pre` of block `k` become the live allocation `l`. */
  function Taken(s: State, k: nat, pre: nat, taken: nat, l: Live): State
    requires k < |s.blocks| && pre + taken <= s.blocks[k].size
  {
    var used := s.usedmem + taken;
    State(s.align, Split(s.blocks, k, pre, taken), s.freemem - taken, used,
          if used > s.maxused then used else s.maxused, [l] + s.live)
  }

  /** One search of the free list, and the split if a block fits. */
  function Alloc(s: State, size: nat, align: nat, offset: nat): (State, Option<nat>)
    requires s.align > 0
  {
    var r := Prepare(s.align, size, align, offset);
    var k := FirstFit(r, s.blocks);
    if r.actual == 0 || k == |s.blocks| then
      (s, None)
    else
      var b := s.blocks[k];
      var pre := PreSize(r, b);
      var ptr := b.addr + pre + (r.want - r.base);
      (Taken(s, k, pre, r.actual, Live(ptr, size)), Some(ptr))
  }

  function RemoveAt<T>(s: seq<T>, i: nat): seq<T>
    requires i < |s|
  {
    if i == 0 then s[1..] else [s[0]] + RemoveAt(s[1..], i - 1)
  }

  /** Free the `i`th live allocation (without offering the heap a chance to shrink). */
  function Free(s: State, i: nat): State
    requires s.align > 0 && i < |s.live|
  {
    var f := Footprint(s.live[i], s.align);
    s.(blocks := Insert(s.blocks, f),
       freemem := s.freemem + f.size,
       usedmem := s.usedmem - f.size,
       live := RemoveAt(s.live, i))
  }

  /** Add memory; the null address is taken to mean "nothing to free". */
  function Populate(s: State, b: Block): State {
    if b.addr == 0 then
      s.(usedmem := s.usedmem + b.size)
    else
      s.(blocks := Insert(s.blocks, b), freemem := s.freemem + b.size)
  }

  // Small facts about lists of blocks.

  lemma {:induction false} BelowIndex(bs: seq<Block>, hi: int)
    ensures Below(bs, hi) <==> forall i | 0 <= i < |bs| :: bs[i].End() <= hi
  {
    if bs != [] {
      BelowIndex(bs[1..], hi);
      assert forall i | 0 < i < |bs| :: bs[i] == bs[1..][i - 1];
    }
  }

  lemma {:induction false} SplitBelow(bs: seq<Block>, k: nat, pre: nat, taken: nat, hi: int)
    requires k < |bs| && pre + taken <= bs[k].size && Below(bs, hi)
    ensures Below(Split(bs, k, pre, taken), hi)
    decreases k
  {
    if k > 0 {
      SplitBelow(bs[1..], k - 1, pre, taken, hi);
    }
  }

  lemma {:induction false} InsertBelow(bs: seq<Block>, f: Block, hi: int)
    requires Below(bs, hi) && f.End() <= hi
    ensures Below(Insert(bs, f), hi)
    decreases |bs|
  {
    if bs != [] {
      if bs[0].End() < f.addr {
        InsertBelow(bs[1..], f, hi);
      } else if bs[0].End() == f.addr {
        InsertBelow(bs[1..], Block(bs[0].addr, bs[0].size + f.size), hi);
      }
    }
  }

  lemma CoversOne(f: Block, x: int)
    ensures Covers([f], x) <==> f.Has(x)
  {
    assert [f][1..] == [];
  }

  lemma CoversCons(f: Block, fs: seq<Block>, x: int)
    ensures Covers([f] + fs, x) <==> f.Has(x) || Covers(fs, x)
  {
    assert ([f] + fs)[1..] == fs;
  }

  // Allocation.

  /** Where a fitting request is placed: the pointer's footprint is exactly the bytes taken. */
  lemma Placement(s: State, size: nat, align: nat, offset: nat, k: nat)
    requires Inv(s) && ValidAlign(s.align, align)
    requires k < |s.blocks| && Fits(Prepare(s.align, size, align, offset), s.blocks[k])
    ensures var r := Prepare(s.align, size, align, offset);
            var b := s.blocks[k];
            var ptr := b.addr + PreSize(r, b) + (r.want - r.base);
            && PreSize(r, b) % s.align == 0 && r.actual % s.align == 0
            && Footprint(Live(ptr, size), s.align) == Block(b.addr + PreSize(r, b), r.actual)
            && ptr % Effective(align) == r.want % Effective(align)
            && 0 < b.addr <= ptr
  {
    AlignedIndex(s.blocks, s.align);
    AboveIndex(s.blocks, 0);
    PlaceIn(s.align, size, align, offset, s.blocks[k]);
  }

  lemma PlaceIn(heapAlign: nat, size: nat, align: nat, offset: nat, b: Block)
    requires ValidAlign(heapAlign, align) && b.addr % heapAlign == 0
    ensures var r := Prepare(heapAlign, size, align, offset);
            var ptr := b.addr + PreSize(r, b) + (r.want - r.base);
            && PreSize(r, b) % heapAlign == 0 && r.actual % heapAlign == 0 && r.base <= r.want
            && Footprint(Live(ptr, size), heapAlign) == Block(b.addr + PreSize(r, b), r.actual)
            && ptr % Effective(align) == r.want % Effective(align)
  {
    var r := Prepare(heapAlign, size, align, offset);
    PlaceResidues(heapAlign, size, align, offset, b.addr);
    var at := b.addr + PreSize(r, b);
    RoundUpFacts(size + r.want % heapAlign, heapAlign);
    PlacePtr(at, r.want, heapAlign);
    SameResidue(at, r.base, r.want - r.base, Effective(align));
  }

  lemma PlaceResidues(heapAlign: nat, size: nat, align: nat, offset: nat, addr: nat)
    requires ValidAlign(heapAlign, align) && addr % heapAlign == 0
    ensures var r := Prepare(heapAlign, size, align, offset);
            var pre := (r.base - addr) % r.modulus;
            && pre % heapAlign == 0 && (addr + pre) % heapAlign == 0
            && (addr + pre) % Effective(align) == r.base % Effective(align)
  {
    var r := Prepare(heapAlign, size, align, offset);
    EffectivePow2(heapAlign, align);
    CoarserPow2(Effective(align), heapAlign);
    RoundDown(r.want, heapAlign);
    PlacePre(r.base, addr, r.modulus, heapAlign, Effective(align));
  }

  /** Skipping to the residue of `base` keeps heap alignment and reaches the requested one. */
  lemma PlacePre(base: nat, addr: nat, modulus: nat, heapAlign: nat, e: nat)
    requires modulus > 0 && heapAlign > 0 && e > 0 && modulus % heapAlign == 0 && modulus % e == 0
    requires base % heapAlign == 0 && addr % heapAlign == 0
    ensures var pre := (base - addr) % modulus;
            && pre % heapAlign == 0
            && (addr + pre) % heapAlign == 0
            && (addr + pre) % e == base % e
  {
    var pre := (base - addr) % modulus;
    AddMultiples(base, addr, heapAlign);
    ModOfMod(base - addr, modulus, heapAlign);
    AddMultiples(addr, pre, heapAlign);
    AlignForward(addr, base, modulus, e);
  }

  lemma PlacePtr(block: nat, want: nat, heapAlign: nat)
    requires heapAlign > 0 && block % heapAlign == 0
    ensures (block + want % heapAlign) % heapAlign == want % heapAlign
  {
    ModAddMultiple(want % heapAlign, block, heapAlign);
    ModUnique(want % heapAlign, heapAlign, 0, want % heapAlign);
  }

  lemma SameResidue(x: int, y: int, d: int, e: int)
    requires e > 0 && x % e == y % e
    ensures (x + d) % e == (y + d) % e
  {
    assert x - y == e * (x / e - y / e);
    ModUnique(x - y, e, x / e - y / e, 0);
    ModAddMultiple(y + d, x - y, e);
  }
}
