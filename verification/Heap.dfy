/** The heap as an object: first-fit allocation, merging free, realloc with an inline size header. */
module Heap {
  import opened Basics
  import opened Bits
  import opened FreeList
  import opened HeapState
  import opened HeapLaws

  /** `sizeof ( struct memory_block )`: the record kept at the start of every free block. */
  const RECORD_SIZE: nat := 32

  /** A `ssize_t` holding a difference of addresses. */
  function SSize(x: int): int {
    var w := x % SIZE_SPACE;
    if w < ADDRESS_LIMIT then w else w - SIZE_SPACE
  }

  lemma SSizeExact(x: int)
    requires 0 - ADDRESS_LIMIT <= x < ADDRESS_LIMIT
    ensures SSize(x) == x
  {
    if x >= 0 {
      ModUnique(x, SIZE_SPACE, 0, x);
    } else {
      ModUnique(x, SIZE_SPACE, -1, x + SIZE_SPACE);
    }
  }

  /** `bs` up to position `k`, continued by `w`. */
  function Upto(bs: seq<Block>, k: nat, w: seq<Block>): seq<Block>
    requires k <= |bs|
  {
    if k == 0 then w else [bs[0]] + Upto(bs[1..], k - 1, w)
  }

  lemma {:induction false} UptoIsSplice(bs: seq<Block>, k: nat, w: seq<Block>)
    requires k <= |bs|
    ensures Upto(bs, k, w) == bs[..k] + w
  {
    if k > 0 {
      UptoIsSplice(bs[1..], k - 1, w);
      assert bs[..k] == [bs[0]] + bs[1..][..k - 1];
    }
  }

  lemma {:induction false} SplitIsUpto(bs: seq<Block>, k: nat, pre: nat, taken: nat, b: Block, tail: seq<Block>, w: seq<Block>)
    requires k < |bs| && b == bs[k] && tail == bs[k + 1..] && pre + taken <= b.size
    requires w == OptCons(b.addr, pre, OptCons(b.addr + pre + taken, b.size - pre - taken, tail))
    ensures Split(bs, k, pre, taken) == Upto(bs, k, w)
    decreases k
  {
    if k > 0 {
      var rest := bs[1..];
      assert rest[k - 1] == b && rest[k..] == tail;
      SplitIsUpto(rest, k - 1, pre, taken, b, tail, w);
    }
  }

  /** How insertion from position `i` on depends on the block there. */
  lemma InsertFrom(bs: seq<Block>, i: nat, f: Block)
    requires i < |bs|
    ensures Insert(bs[i..], f) ==
            if bs[i].End() < f.addr then [bs[i]] + Insert(bs[i + 1..], f)
            else if bs[i].End() == f.addr then Insert(bs[i + 1..], Block(bs[i].addr, bs[i].size + f.size))
            else if f.End() == bs[i].addr then [Block(f.addr, f.size + bs[i].size)] + bs[i + 1..]
            else [f] + bs[i..]
  {
    assert bs[i..][1..] == bs[i + 1..] && bs[i..][0] == bs[i];
  }

  /** What is known of the block at position `i` of a suffix, and of the suffix after it. */
  lemma Suffix(bs: seq<Block>, i: nat, f: Block)
    requires i < |bs| && Canonical(bs[i..]) && DisjointFrom(bs[i..], f) && Below(bs[i..], ADDRESS_LIMIT)
    ensures Canonical(bs[i + 1..]) && DisjointFrom(bs[i + 1..], f) && Below(bs[i + 1..], ADDRESS_LIMIT)
    ensures Above(bs[i + 1..], bs[i].addr) && Above(bs[i + 1..], bs[i].End())
    ensures bs[i].size > 0 && bs[i].Disjoint(f) && bs[i].End() <= ADDRESS_LIMIT
    ensures Above(bs[i..], f.addr) ==> f.addr < bs[i].addr && Above(bs[i + 1..], f.addr)
  {
    assert bs[i..][1..] == bs[i + 1..] && bs[i..][0] == bs[i];
    AboveMono(bs[i + 1..], bs[i].End(), bs[i].addr);
  }

  /** The goal of the insertion loop, with `freeing` to be placed at position `i` or later. */
  function Goal(bs: seq<Block>, i: nat, freeing: Block): seq<Block>
    requires i <= |bs|
  {
    bs[..i] + Insert(bs[i..], freeing)
  }

  lemma GoalPastBlock(bs: seq<Block>, i: nat, f: Block)
    requires i < |bs| && bs[i].End() < f.addr
    ensures Goal(bs, i + 1, f) == Goal(bs, i, f)
  {
    InsertFrom(bs, i, f);
    assert bs[..i + 1] == bs[..i] + [bs[i]];
  }

  lemma GoalMerge(bs: seq<Block>, i: nat, f: Block, cs: seq<Block>, g: Block)
    requires i < |bs| && bs[i].End() == f.addr
    requires cs == bs[..i] + bs[i + 1..] && g == Block(bs[i].addr, bs[i].size + f.size)
    ensures cs[i..] == bs[i + 1..] && Goal(cs, i, g) == Goal(bs, i, f)
  {
    InsertFrom(bs, i, f);
    assert cs[i..] == bs[i + 1..] && cs[..i] == bs[..i];
  }

  /** Linking `freeing` in at position `i`, and absorbing the next block if it touches. */
  lemma GoalReached(bs: seq<Block>, i: nat, f: Block)
    requires i <= |bs| && f.size > 0 && (i < |bs| ==> f.End() <= bs[i].addr)
    ensures Goal(bs, i, f) ==
            if i < |bs| && f.End() == bs[i].addr then bs[..i] + [Block(f.addr, f.size + bs[i].size)] + bs[i + 1..]
            else bs[..i] + [f] + bs[i..]
  {
    if i < |bs| {
      InsertFrom(bs, i, f);
    }
  }

  /** What a successful allocation keeps: the invariant, the bound, and that free bytes were free before. */
  lemma AllocSound(s: State, size: nat, align: nat, offset: nat, hi: nat)
    requires Inv(s) && ValidAlign(s.align, align) && Alloc(s, size, align, offset).1.Some?
    requires Below(s.blocks, hi) && Below(Feet(s.live, s.align), hi)
    ensures var t := Alloc(s, size, align, offset).0;
            && Inv(t) && t.align == s.align && Below(t.blocks, hi) && Below(Feet(t.live, s.align), hi)
            && (forall x | Covers(t.blocks, x) :: Covers(s.blocks, x))
  {
    AllocKeepsInv(s, size, align, offset);
    AllocTakesFootprint(s, size, align, offset);
    AllocBelow(s, size, align, offset, hi);
  }

  /** Allocation stays within the memory the heap has. */
  lemma AllocBelow(s: State, size: nat, align: nat, offset: nat, hi: nat)
    requires Inv(s) && ValidAlign(s.align, align)
    requires Below(s.blocks, hi) && Below(Feet(s.live, s.align), hi)
    ensures var t := Alloc(s, size, align, offset).0;
            Below(t.blocks, hi) && Below(Feet(t.live, s.align), hi)
  {
    if Alloc(s, size, align, offset).1.Some? {
      var k, pre, taken, l := AllocTakes(s, size, align, offset);
      TakenBelow(s, k, pre, taken, l, hi);
    } else {
      AllocFails(s, size, align, offset);
    }
  }

  lemma TakenBelow(s: State, k: nat, pre: nat, taken: nat, l: Live, hi: nat)
    requires s.align > 0 && k < |s.blocks| && pre + taken <= s.blocks[k].size
    requires Below(s.blocks, hi) && Below(Feet(s.live, s.align), hi)
    requires Footprint(l, s.align) == Block(s.blocks[k].addr + pre, taken)
    ensures var t := Taken(s, k, pre, taken, l); Below(t.blocks, hi) && Below(Feet(t.live, s.align), hi)
  {
    SplitBelow(s.blocks, k, pre, taken, hi);
    BelowIndex(s.blocks, hi);
    FeetCons(l, s.live, s.align);
  }

  /** The gaps between a free-list block and the block being freed, as `ssize_t` differences. */
  method Gaps(block: Block, freeing: Block) returns (before: int, after: int)
    requires block.End() <= ADDRESS_LIMIT && freeing.End() <= ADDRESS_LIMIT && block.size > 0 && freeing.size > 0
    ensures before == freeing.addr - block.End() && after == block.addr - freeing.End()
  {
    SSizeExact(freeing.addr - block.End());
    SSizeExact(block.addr - freeing.End());
    before, after := SSize(freeing.addr - block.End()), SSize(block.addr - freeing.End());
  }

  /**
    The loop of heap_free_block(): walk the list `bs` to the place of `f`, unlinking and
    absorbing a block that ends where `f` starts. `gapAfter` is zero if the block at
    position `i` starts where `freeing` ends, and negative if there is no block there.
   */
  method FindPlace(bs: seq<Block>, f: Block) returns (cs: seq<Block>, freeing: Block, i: nat, gapAfter: int)
    requires Canonical(bs) && DisjointFrom(bs, f) && f.size > 0 && f.End() <= ADDRESS_LIMIT
    requires Below(bs, ADDRESS_LIMIT)
    ensures i <= |cs| && Goal(cs, i, freeing) == Insert(bs, f)
    ensures freeing.size > 0 && freeing.End() == f.End() && freeing.addr <= f.addr
    ensures i < |cs| ==> gapAfter == cs[i].addr - freeing.End() >= 0
    ensures i == |cs| ==> gapAfter < 0
  {
    cs, freeing, i, gapAfter := bs, f, 0, -1;
    ghost var merged := false;
    assert bs[0..] == bs && Goal(bs, 0, f) == Insert(bs, f);
    while i < |cs|
      invariant 0 <= i <= |cs|
      invariant Canonical(cs[i..]) && DisjointFrom(cs[i..], freeing) && Below(cs[i..], ADDRESS_LIMIT)
      invariant freeing.size > 0 && freeing.End() == f.End() && freeing.addr <= f.addr
      invariant if merged then Above(cs[i..], freeing.addr) else freeing == f
      invariant Goal(cs, i, freeing) == Insert(bs, f)
      invariant gapAfter < 0
      decreases |cs| - i
    {
      var block := cs[i];
      Suffix(cs, i, freeing);
      var gapBefore;
      gapBefore, gapAfter := Gaps(block, freeing);
      if gapBefore == 0 {
        // Merge with the immediately preceding block, unlinking it.
        ghost var was, g := cs, freeing;
        AboveDisjoint(cs[i + 1..], block, freeing);
        freeing := Block(block.addr, block.size + f.size);
        cs := cs[..i] + cs[i + 1..];
        GoalMerge(was, i, g, cs, freeing);
        merged := true;
      } else {
        if gapAfter >= 0 {
          break;
        }
        GoalPastBlock(cs, i, freeing);
        i := i + 1;
      }
    }
  }

  /** Position of a live allocation in the list of live allocations. */
  ghost function IndexOf(live: seq<Live>, l: Live): (i: nat)
    requires l in live
    ensures i < |live| && live[i] == l
  {
    if live[0] == l then 0 else 1 + IndexOf(live[1..], l)
  }

  lemma {:induction false} RemoveFootBelow(live: seq<Live>, i: nat, align: nat, hi: nat)
    requires align > 0 && i < |live| && Below(Feet(live, align), hi)
    ensures Below(Feet(RemoveAt(live, i), align), hi) && Footprint(live[i], align).End() <= hi
    decreases i
  {
    if i > 0 {
      RemoveFootBelow(live[1..], i - 1, align, hi);
      FeetCons(live[0], RemoveAt(live[1..], i - 1), align);
    }
  }

  /** Rounding an aligned region changes nothing. */
  lemma PopulateRounds(start: nat, len: nat, align: nat)
    requires 0 < align && start % align == 0 && len % align == 0 && len + align <= SIZE_SPACE
    ensures Footprint(Live(start, len), align) == Block(start, len)
  {
    var v := len + align - 1;
    ModUnique(v, SIZE_SPACE, 0, v);
    ModUnique(align - 1, align, 0, align - 1);
    ModAddMultiple(align - 1, len, align);
  }

  class Heap {
    /** Alignment of free blocks. */
    const align: nat
    /** Alignment of size-tracked allocations. */
    const ptrAlign: nat
    /** Physical memory, indexed by address. */
    const mem: array<byte>

    var blocks: seq<Block>
    var freemem: int
    var usedmem: int
    var maxusedmem: int
    /** The allocations in callers' hands. */
    ghost var live: seq<Live>

    ghost function State(): HeapState.State
      reads this
    {
      HeapState.State(align, blocks, freemem, usedmem, maxusedmem, live)
    }

    ghost predicate Valid()
      reads this
    {
      && Inv(State())
      && RECORD_SIZE <= align && mem.Length <= ADDRESS_LIMIT
      && Below(blocks, mem.Length) && Below(Feet(live, align), mem.Length)
      && IsPow2(ptrAlign) && ptrAlign < SIZE_SPACE
    }

    constructor (align: nat, ptrAlign: nat, mem: array<byte>)
      requires IsPow2(align) && RECORD_SIZE <= align && 4 * align <= SIZE_SPACE
      requires IsPow2(ptrAlign) && ptrAlign < SIZE_SPACE && mem.Length <= ADDRESS_LIMIT
      ensures Valid() && State() == Empty(align)
      ensures this.align == align && this.ptrAlign == ptrAlign && this.mem == mem
    {
      this.align, this.ptrAlign, this.mem := align, ptrAlign, mem;
      blocks, freemem, usedmem, maxusedmem, live := [], 0, 0, 0, [];
    }

    /**
      check_blocks(), the integrity check that guards every operation: neighbour by
      neighbour it establishes the pairwise order. It does not look at the remainder of a
      size, so it is the model's order and alignment only for sizes that are whole units.
     */
    method CheckBlocks() returns (ok: bool)
      requires align > 0
      ensures ok <==> Canonical(blocks) && forall i | 0 <= i < |blocks| ::
                        blocks[i].addr % align == 0 && blocks[i].size >= RECORD_SIZE && blocks[i].size >= align
    {
      CanonicalIndex(blocks);
      ok := true;
      var i := 0;
      while i < |blocks|
        invariant 0 <= i <= |blocks|
        invariant ok <==>
                  && (forall j | 0 <= j < i :: blocks[j].addr % align == 0 && blocks[j].size >= RECORD_SIZE && blocks[j].size >= align)
                  && (forall j, l | 0 <= j < l < i :: blocks[j].End() < blocks[l].addr)
      {
        var b := blocks[i];
        if b.addr % align != 0 || b.size < RECORD_SIZE || b.size < align || b.addr + b.size <= b.addr {
          ok := false;
        }
        if i > 0 && (b.addr <= blocks[i - 1].addr || b.addr <= blocks[i - 1].End()) {
          ok := false;
        }
        if ok {
          assert forall j | 0 <= j < i :: blocks[j].End() < b.addr;
        }
        i := i + 1;
      }
    }

    /** Rewrite the records at the start of the given blocks with bytes of unknown value. */
    method WriteRecords(bs: seq<Block>)
      requires forall i | 0 <= i < |bs| :: bs[i].size >= RECORD_SIZE && bs[i].End() <= mem.Length
      modifies mem
      ensures forall x | 0 <= x < mem.Length && !Covers(bs, x) :: mem[x] == old(mem[x])
    {
      var i := 0;
      while i < |bs|
        invariant 0 <= i <= |bs|
        invariant forall x | 0 <= x < mem.Length && !Covers(bs, x) :: mem[x] == old(mem[x])
      {
        var k := 0;
        while k < RECORD_SIZE
          invariant 0 <= k <= RECORD_SIZE
          invariant forall x | 0 <= x < mem.Length && !Covers(bs, x) :: mem[x] == old(mem[x])
        {
          var junk: byte := *;
          CoversIndex(bs, bs[i].addr + k);
          assert bs[i].Has(bs[i].addr + k);
          mem[bs[i].addr + k] := junk;
          k := k + 1;
        }
        i := i + 1;
      }
    }

    lemma RecordsFit(bs: seq<Block>)
      requires align >= RECORD_SIZE && Canonical(bs) && AlignedTo(bs, align) && Below(bs, mem.Length)
      ensures forall i | 0 <= i < |bs| :: bs[i].size >= RECORD_SIZE && bs[i].End() <= mem.Length
    {
      CanonicalIndex(bs);
      AlignedIndex(bs, align);
      BelowIndex(bs, mem.Length);
      forall i | 0 <= i < |bs|
        ensures bs[i].size >= RECORD_SIZE
      {
        MultiplesApart(0, bs[i].size, align);
      }
    }

    /** Compute the request values with the masks of the C code. */
    method PrepareRequest(size: nat, alignment: nat, offset: nat) returns (r: Request)
      requires ValidAlign(align, alignment)
      ensures r == Prepare(align, size, alignment, offset)
      ensures IsPow2(r.modulus) && r.modulus <= SIZE_SPACE
    {
      PrepareBits(align, size, alignment, offset);
      MaskBits(align, alignment);
      var want := if alignment == 0 then 0 else And(offset, alignment - 1);
      var base := AndNot(want, align - 1);
      var actual := AndNot((size + want - base + align - 1) % SIZE_SPACE, align - 1);
      r := Request(want, base, actual, Or((alignment - 1) % SIZE_SPACE, align - 1) + 1);
    }

    /** Split block `i` in place; its middle part leaves the free list. */
    method SplitBlock(i: nat, pre: nat, taken: nat)
      requires i < |blocks| && pre + taken <= blocks[i].size && taken > 0
      modifies this`blocks
      ensures blocks == Split(old(blocks), i, pre, taken)
    {
      var b := blocks[i];
      var post := b.size - pre - taken;
      ghost var was := blocks;
      ghost var w := OptCons(b.addr, pre, OptCons(b.addr + pre + taken, post, was[i + 1..]));
      SplitIsUpto(blocks, i, pre, taken, b, was[i + 1..], w);
      UptoIsSplice(blocks, i, w);
      if post != 0 {
        blocks := blocks[..i + 1] + [Block(b.addr + pre + taken, post)] + blocks[i + 1..];
      }
      blocks := blocks[i := Block(b.addr, pre)];
      if pre == 0 {
        blocks := blocks[..i] + blocks[i + 1..];
      }
      assert blocks == was[..i] + w;
    }

    method PreSizeOf(r: Request, b: Block) returns (pre: nat)
      requires IsPow2(r.modulus) && r.modulus <= SIZE_SPACE
      ensures pre == PreSize(r, b)
    {
      PreSizeBits(r, b);
      pre := And((r.base - b.addr) % SIZE_SPACE, r.modulus - 1);
    }

    /** The search itself: position of the first block that fits. */
    method Search(r: Request) returns (i: nat)
      requires IsPow2(r.modulus) && r.modulus <= SIZE_SPACE
      ensures i == FirstFit(r, blocks)
    {
      i := 0;
      while i < |blocks|
        invariant 0 <= i <= |blocks|
        invariant forall j | 0 <= j < i :: !Fits(r, blocks[j])
      {
        var pre := PreSizeOf(r, blocks[i]);
        if blocks[i].size < pre || blocks[i].size - pre < r.actual {
          i := i + 1;
        } else {
          return;
        }
      }
    }

    /** One search of the free list for a request, taking the first block that fits. */
    method AllocOnce(size: nat, alignment: nat, offset: nat) returns (ptr: Option<nat>)
      requires Valid() && ValidAlign(align, alignment)
      modifies this, mem
      ensures Valid()
      ensures (State(), ptr) == Alloc(old(State()), size, alignment, offset)
      ensures forall x | 0 <= x < mem.Length && !Covers(old(blocks), x) :: mem[x] == old(mem[x])
    {
      var r := PrepareRequest(size, alignment, offset);
      if r.actual == 0 {
        return None;
      }
      var i := Search(r);
      if i == |blocks| {
        return None;
      }
      var p := TakeFirst(r, i, size, alignment, offset);
      return Some(p);
    }

    /** The part of heap_alloc_block() that follows a successful search. */
    method TakeFirst(r: Request, i: nat, size: nat, ghost alignment: nat, ghost offset: nat) returns (ptr: nat)
      requires Valid() && ValidAlign(align, alignment) && r == Prepare(align, size, alignment, offset) && r.actual != 0
      requires i == FirstFit(r, blocks) && i < |blocks|
      modifies this, mem
      ensures Valid()
      ensures (State(), Some(ptr)) == Alloc(old(State()), size, alignment, offset)
      ensures forall x | 0 <= x < mem.Length && !Covers(old(blocks), x) :: mem[x] == old(mem[x])
    {
      ghost var s := State();
      AllocSound(s, size, alignment, offset, mem.Length);
      RecordsFit(blocks);
      WriteRecords(blocks);
      ptr := TakeFit(r, i, size, alignment, offset);
      RecordsFit(blocks);
      WriteRecords(blocks);
    }

    /** Taking the first block that fits is the specified allocation. */
    method TakeFit(r: Request, i: nat, size: nat, ghost alignment: nat, ghost offset: nat) returns (ptr: nat)
      requires align > 0 && r == Prepare(align, size, alignment, offset) && r.actual != 0
      requires i == FirstFit(r, blocks) && i < |blocks| && Fits(r, blocks[i])
      modifies this
      ensures (State(), Some(ptr)) == Alloc(old(State()), size, alignment, offset)
    {
      ptr := Take(r, i, size);
    }

    /** Take the request from block `i`, the first that fits. */
    method Take(r: Request, i: nat, size: nat) returns (ptr: nat)
      requires r.modulus > 0 && r.actual > 0 && r.base <= r.want && i < |blocks| && Fits(r, blocks[i])
      modifies this
      ensures ptr == old(blocks[i].addr + PreSize(r, blocks[i])) + (r.want - r.base)
      ensures blocks == Split(old(blocks), i, PreSize(r, old(blocks)[i]), r.actual)
      ensures freemem == old(freemem) - r.actual && usedmem == old(usedmem) + r.actual
      ensures maxusedmem == if usedmem > old(maxusedmem) then usedmem else old(maxusedmem)
      ensures live == [Live(ptr, size)] + old(live)
    {
      var b := blocks[i];
      var pre := PreSize(r, b);
      SplitBlock(i, pre, r.actual);
      freemem := freemem - r.actual;
      usedmem := usedmem + r.actual;
      if usedmem > maxusedmem {
        maxusedmem := usedmem;
      }
      ptr := b.addr + pre + r.want - r.base;
      live := [Live(ptr, size)] + live;
    }

    /** Insert block `f` into the free list; returns the block that now holds it and its position. */
    method InsertBlock(f: Block) returns (freeing: Block, i: nat)
      requires Canonical(blocks) && DisjointFrom(blocks, f) && f.size > 0 && f.End() <= ADDRESS_LIMIT
      requires Below(blocks, ADDRESS_LIMIT)
      modifies this`blocks
      ensures blocks == Insert(old(blocks), f)
      ensures i < |blocks| && blocks[i] == freeing
      ensures freeing.addr <= f.addr && f.End() <= freeing.End()
    {
      var bs, gapAfter;
      bs, freeing, i, gapAfter := FindPlace(blocks, f);
      blocks := bs;
      freeing := Link(freeing, i, gapAfter == 0);
    }

    /** Link `freeing` in at position `i`, merging the following block into it if they touch. */
    method Link(freeing: Block, i: nat, touches: bool) returns (merged: Block)
      requires i <= |blocks| && freeing.size > 0 && (i < |blocks| ==> freeing.End() <= blocks[i].addr)
      requires touches <==> i < |blocks| && freeing.End() == blocks[i].addr
      modifies this`blocks
      ensures blocks == Goal(old(blocks), i, freeing)
      ensures i < |blocks| && blocks[i] == merged
      ensures merged.addr == freeing.addr && freeing.End() <= merged.End()
    {
      GoalReached(blocks, i, freeing);
      ghost var was := blocks;
      merged := freeing;
      blocks := blocks[..i] + [freeing] + blocks[i..];
      if touches {
        assert blocks[i + 1] == was[i] && blocks[i + 2..] == was[i + 1..];
        merged := Block(freeing.addr, freeing.size + blocks[i + 1].size);
        blocks := blocks[..i] + [merged] + blocks[i + 2..];
      }
    }

    /** The part of heap_free_block() after its argument has been rounded to a block. */
    method Release(f: Block) returns (freeing: Block, i: nat)
      requires align >= RECORD_SIZE && Canonical(blocks) && AlignedTo(blocks, align) && Below(blocks, mem.Length)
      requires f.addr % align == 0 && f.size % align == 0 && f.size > 0 && f.End() <= mem.Length <= ADDRESS_LIMIT
      requires DisjointFrom(blocks, f)
      modifies this`blocks, this`freemem, this`usedmem, mem
      ensures blocks == Insert(old(blocks), f) && Below(blocks, mem.Length)
      ensures freemem == old(freemem) + f.size && usedmem == old(usedmem) - f.size
      ensures i < |blocks| && blocks[i] == freeing && freeing.addr <= f.addr && f.End() <= freeing.End()
      ensures forall x | 0 <= x < mem.Length && !Covers(blocks, x) :: mem[x] == old(mem[x])
    {
      BelowIndex(blocks, mem.Length);
      BelowIndex(blocks, ADDRESS_LIMIT);
      AboveIndex(blocks, -1);
      InsertKeeps(blocks, f, -1);
      InsertAligned(blocks, f, align);
      InsertBelow(blocks, f, mem.Length);
      freeing, i := InsertBlock(f);
      RecordsFit(blocks);
      WriteRecords(blocks);
      freemem := freemem + f.size;
      usedmem := usedmem - f.size;
    }

    /** The block named by a pointer and size, computed with the masks of the C code. */
    method BlockOf(ptr: nat, size: nat) returns (f: Block)
      requires IsPow2(align)
      ensures f == Footprint(Live(ptr, size), align)
    {
      MaskMod(ptr, align);
      var sub := And(ptr, align - 1);
      MaskMod((size + sub + align - 1) % SIZE_SPACE, align);
      f := Block(ptr - sub, AndNot((size + sub + align - 1) % SIZE_SPACE, align - 1));
    }

    /** heap_free_block() up to the call of the shrink hook, which is given the freed block with its neighbours; a null pointer is ignored. */
    method FreeBlock(ptr: nat, size: nat) returns (freeing: Block, i: nat)
      requires Valid() && (ptr == 0 || Live(ptr, size) in live)
      modifies this, mem
      ensures Valid()
      ensures ptr == 0 ==> State() == old(State())
      ensures ptr != 0 ==>
                var f := Footprint(Live(ptr, size), align);
                && State() == Free(old(State()), IndexOf(old(live), Live(ptr, size)))
                && i < |blocks| && blocks[i] == freeing && freeing.addr <= f.addr && f.End() <= freeing.End()
      ensures forall x | 0 <= x < mem.Length && !Covers(blocks, x) :: mem[x] == old(mem[x])
    {
      freeing, i := Block(0, 0), 0;
      if ptr == 0 {
        return;
      }
      ghost var s := State();
      ghost var k := IndexOf(live, Live(ptr, size));
      FreeKeepsInv(s, k);
      RemoveFootBelow(live, k, align, mem.Length);
      RemoveFoot(live, k, align);
      var f := BlockOf(ptr, size);
      freeing, i := Release(f);
      live := RemoveAt(live, k);
      assert State() == Free(s, k);
    }

    /** heap_populate(): add memory to the allocation pool. The block that now holds it is what the shrink hook is given. */
    method PopulateBlock(start: nat, len: nat) returns (freeing: Block)
      requires Valid() && Populatable(State(), Block(start, len)) && start + len <= mem.Length
      modifies this, mem
      ensures State() == Populate(old(State()), Block(start, len))
      ensures start != 0 ==> Valid()
      ensures start != 0 ==> freeing in blocks && freeing.addr <= start && start + len <= freeing.End()
      ensures forall x | 0 <= x < mem.Length && !Covers(blocks, x) :: mem[x] == old(mem[x])
    {
      ghost var s := State();
      freeing := Block(0, 0);
      PopulateExact(s, Block(start, len));
      if start != 0 {
        assert Footprint(Live(start, len), align) == Block(start, len) by {
          PopulateRounds(start, len, align);
        }
        assert DisjointFrom(blocks, Block(start, len)) by {
          DisjointBytes(blocks, Block(start, len));
          forall x | Block(start, len).Has(x)
            ensures !Covers(blocks, x)
          {
            CoversOne(Block(start, len), x);
          }
        }
        var f := BlockOf(start, len);
        var i;
        freeing, i := Release(f);
      }
      usedmem := usedmem + len;
    }
  }
}
