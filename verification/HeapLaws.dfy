/** What every heap operation keeps, what one undoes of another, and what holds over whole runs. */
module HeapLaws {
  import opened Basics
  import opened Bits
  import opened FreeList
  import opened HeapState

  lemma FeetCons(l: Live, live: seq<Live>, align: nat)
    requires align > 0
    ensures Feet([l] + live, align) == [Footprint(l, align)] + Feet(live, align)
    ensures Feet([l] + live, align)[1..] == Feet(live, align)
  {
    assert ([l] + live)[1..] == live;
  }

  /** Taking bytes from the free list for a new footprint keeps free and live bytes apart. */
  lemma TakenIsLive(bs: seq<Block>, k: nat, pre: nat, taken: nat, fs: seq<Block>)
    requires k < |bs| && pre + taken <= bs[k].size && taken > 0 && Canonical(bs)
    requires NoByteShared(bs, fs)
    ensures var f := Block(bs[k].addr + pre, taken);
            && NoByteShared([f], fs)
            && NoByteShared(Split(bs, k, pre, taken), [f] + fs)
  {
    var f := Block(bs[k].addr + pre, taken);
    forall x
      ensures !(Covers([f], x) && Covers(fs, x))
      ensures !(Covers(Split(bs, k, pre, taken), x) && Covers([f] + fs, x))
    {
      CoversOne(f, x);
      CoversCons(f, fs, x);
      SplitCovers(bs, k, pre, taken, x);
      CoversIndex(bs, x);
      assert f.Has(x) ==> bs[k].Has(x);
      assert f.Has(x) ==> Covers(bs, x);
    }
  }

  lemma SplitSound(bs: seq<Block>, k: nat, pre: nat, taken: nat, align: nat)
    requires align > 0 && FreeSound(bs, align) && k < |bs| && pre + taken <= bs[k].size && taken > 0
    requires pre % align == 0 && taken % align == 0
    ensures FreeSound(Split(bs, k, pre, taken), align)
    ensures Total(Split(bs, k, pre, taken)) == Total(bs) - taken
    ensures var f := Block(bs[k].addr + pre, taken);
            f.addr % align == 0 && 0 < f.addr && f.End() <= ADDRESS_LIMIT
  {
    SplitKeeps(bs, k, pre, taken, 0);
    SplitAligned(bs, k, pre, taken, align);
    SplitBelow(bs, k, pre, taken, ADDRESS_LIMIT);
    BelowIndex(bs, ADDRESS_LIMIT);
    AboveIndex(bs, 0);
    AlignedIndex(bs, align);
    AddMultiples(bs[k].addr, pre, align);
  }

  /** Footprints gain a head that was taken from the free list. */
  lemma ConsSound(f: Block, fs: seq<Block>, align: nat)
    requires align > 0 && LiveSound(fs, align) && NoByteShared([f], fs)
    requires f.size > 0 && f.addr % align == 0 && f.size % align == 0 && 0 < f.addr && f.End() <= ADDRESS_LIMIT
    ensures LiveSound([f] + fs, align) && Total([f] + fs) == f.size + Total(fs)
  {
    var gs := [f] + fs;
    assert gs[0] == f && gs[1..] == fs;
  }

  lemma TakeKeepsInv(s: State, k: nat, pre: nat, taken: nat, l: Live)
    requires Inv(s) && k < |s.blocks| && pre + taken <= s.blocks[k].size && taken > 0
    requires pre % s.align == 0 && taken % s.align == 0
    requires Footprint(l, s.align) == Block(s.blocks[k].addr + pre, taken)
    ensures Inv(Taken(s, k, pre, taken, l))
  {
    var f, fs := Block(s.blocks[k].addr + pre, taken), Feet(s.live, s.align);
    SplitSound(s.blocks, k, pre, taken, s.align);
    TakenIsLive(s.blocks, k, pre, taken, fs);
    ConsSound(f, fs, s.align);
    FeetCons(l, s.live, s.align);
  }

  /** Allocation fails exactly when the rounded size is zero or no block fits, and then changes nothing. */
  lemma AllocFails(s: State, size: nat, align: nat, offset: nat)
    requires s.align > 0
    ensures var (s', p) := Alloc(s, size, align, offset);
            var r := Prepare(s.align, size, align, offset);
            && (p.None? <==> r.actual == 0 || forall i | 0 <= i < |s.blocks| :: !Fits(r, s.blocks[i]))
            && (p.None? ==> s' == s)
  {
  }

  /** What a successful allocation takes from which block. */
  lemma AllocTakes(s: State, size: nat, align: nat, offset: nat) returns (k: nat, pre: nat, taken: nat, l: Live)
    requires Inv(s) && ValidAlign(s.align, align) && Alloc(s, size, align, offset).1.Some?
    ensures k < |s.blocks| && pre + taken <= s.blocks[k].size && taken > 0
    ensures pre % s.align == 0 && taken % s.align == 0 && Footprint(l, s.align) == Block(s.blocks[k].addr + pre, taken)
    ensures Alloc(s, size, align, offset) == (Taken(s, k, pre, taken, l), Some(l.ptr)) && l.size == size
  {
    var r := Prepare(s.align, size, align, offset);
    k := FirstFit(r, s.blocks);
    var b := s.blocks[k];
    pre, taken := PreSize(r, b), r.actual;
    Placement(s, size, align, offset, k);
    l := Live(b.addr + pre + (r.want - r.base), size);
  }

  /** Whatever the outcome, allocation keeps the invariant. */
  lemma AllocKeepsInv(s: State, size: nat, align: nat, offset: nat)
    requires Inv(s) && ValidAlign(s.align, align)
    ensures Inv(Alloc(s, size, align, offset).0)
  {
    if Alloc(s, size, align, offset).1.Some? {
      var k, pre, taken, l := AllocTakes(s, size, align, offset);
      TakeKeepsInv(s, k, pre, taken, l);
    } else {
      AllocFails(s, size, align, offset);
    }
  }

  /** The pointer returned is non-null, inside its footprint, and congruent to the requested offset. */
  lemma AllocAligned(s: State, size: nat, align: nat, offset: nat)
    requires Inv(s) && ValidAlign(s.align, align)
    requires Alloc(s, size, align, offset).1.Some?
    ensures var p := Alloc(s, size, align, offset).1.value;
            var f := Footprint(Live(p, size), s.align);
            && p > 0 && f.Has(p)
            && f.size == Prepare(s.align, size, align, offset).actual
            && p % s.align == Prepare(s.align, size, align, offset).want % s.align
            && (align > 0 ==> p % align == offset % align)
  {
    var r := Prepare(s.align, size, align, offset);
    var k := FirstFit(r, s.blocks);
    Placement(s, size, align, offset, k);
    if align > 0 {
      ModUnique(r.want, align, 0, r.want);
    }
    MultiplesApart(0, r.actual, s.align);
  }

  /** The footprint of the new allocation was free before, and exactly it is no longer free. */
  lemma AllocTakesFootprint(s: State, size: nat, align: nat, offset: nat)
    requires Inv(s) && ValidAlign(s.align, align)
    requires Alloc(s, size, align, offset).1.Some?
    ensures var (s', p) := Alloc(s, size, align, offset);
            var f := Footprint(Live(p.value, size), s.align);
            && s'.live == [Live(p.value, size)] + s.live
            && (forall x :: Covers(s'.blocks, x) <==> Covers(s.blocks, x) && !f.Has(x))
            && (forall x | f.Has(x) :: Covers(s.blocks, x))
  {
    var k, pre, taken, l := AllocTakes(s, size, align, offset);
    TakenFootprint(s, k, pre, taken, l);
  }

  lemma TakenFootprint(s: State, k: nat, pre: nat, taken: nat, l: Live)
    requires s.align > 0 && k < |s.blocks| && pre + taken <= s.blocks[k].size && taken > 0 && Canonical(s.blocks)
    requires Footprint(l, s.align) == Block(s.blocks[k].addr + pre, taken)
    ensures var t, f := Taken(s, k, pre, taken, l), Footprint(l, s.align);
            && (forall x :: Covers(t.blocks, x) <==> Covers(s.blocks, x) && !f.Has(x))
            && (forall x | f.Has(x) :: Covers(s.blocks, x))
  {
    var b, f := s.blocks[k], Block(s.blocks[k].addr + pre, taken);
    forall x
      ensures Covers(Split(s.blocks, k, pre, taken), x) <==> Covers(s.blocks, x) && !f.Has(x)
      ensures f.Has(x) ==> Covers(s.blocks, x)
    {
      SplitCovers(s.blocks, k, pre, taken, x);
      CoversIndex(s.blocks, x);
      assert f.Has(x) ==> b.Has(x);
    }
  }

  /** A request with alignment zero is never satisfied. */
  lemma ZeroAlignFails(s: State, size: nat, offset: nat)
    requires Inv(s)
    ensures Alloc(s, size, 0, offset) == (s, None)
  {
    var r := Prepare(s.align, size, 0, offset);
    ModUnique(0, s.align, 0, 0);
    forall i | 0 <= i < |s.blocks|
      ensures !Fits(r, s.blocks[i])
    {
      var b := s.blocks[i];
      AboveIndex(s.blocks, 0);
      BelowIndex(s.blocks, ADDRESS_LIMIT);
      ModUnique(r.base - b.addr, SIZE_SPACE, -1, SIZE_SPACE - b.addr);
    }
  }

  /**
    The caller's `size` bytes lie inside the footprint exactly when the size, with the
    offset within an alignment unit added, does not exceed the address space.
   */
  lemma AllocCoversRequestExactly(s: State, size: nat, align: nat, offset: nat)
    requires Inv(s) && ValidAlign(s.align, align) && size < SIZE_SPACE
    requires Alloc(s, size, align, offset).1.Some?
    ensures align > 0
    ensures var p := Alloc(s, size, align, offset).1.value;
            p + size <= Footprint(Live(p, size), s.align).End() <==> size + offset % align % s.align <= SIZE_SPACE
  {
    if align == 0 {
      ZeroAlignFails(s, size, offset);
    }
    AllocAligned(s, size, align, offset);
    var p := Alloc(s, size, align, offset).1.value;
    OverflowCheckExact(size + p % s.align, s.align);
  }

  /** All but one byte of the address space, asked for at an offset: the allocation is of a single unit of 32 bytes. */
  lemma ShortFootprint()
    ensures var s, size := Populate(Empty(32), Block(64, 64)), SIZE_SPACE - 1;
            var p := Alloc(s, size, 32, 16).1;
            Inv(s) && p == Some(80) && Footprint(Live(80, size), 32) == Block(64, 32)
  {
    assert Pow2(5) == 32;
    EmptyInv(32);
    PopulateExact(Empty(32), Block(64, 64));
    var size := SIZE_SPACE - 1;
    var r := Prepare(32, size, 32, 16);
    ShortRequest(size);
    assert r.want == 16 && r.base == 0 && r.actual == 32 && r.modulus == 32;
    assert Insert([], Block(64, 64)) == [Block(64, 64)];
    assert Fits(r, Block(64, 64));
  }

  lemma ShortRequest(size: nat)
    requires size == SIZE_SPACE - 1
    ensures (size + 16 + 32 - 1) % SIZE_SPACE == 46
  {
    ModUnique(size + 16 + 32 - 1, SIZE_SPACE, 1, 46);
  }

  // Freeing.

  /** What removing one allocation does to the list of footprints. */
  lemma {:induction false} RemoveFoot(live: seq<Live>, i: nat, align: nat)
    requires align > 0 && i < |live|
    ensures var fs, gs, f := Feet(live, align), Feet(RemoveAt(live, i), align), Footprint(live[i], align);
            && Total(fs) == Total(gs) + f.size
            && (AlignedTo(fs, align) ==> AlignedTo(gs, align) && f.addr % align == 0 && f.size % align == 0)
            && (NonEmpty(fs) ==> NonEmpty(gs) && f.size > 0)
            && (Above(fs, 0) ==> Above(gs, 0) && f.addr > 0)
            && (Below(fs, ADDRESS_LIMIT) ==> Below(gs, ADDRESS_LIMIT) && f.End() <= ADDRESS_LIMIT)
    decreases i
  {
    if i > 0 {
      RemoveFoot(live[1..], i - 1, align);
      FeetCons(live[0], RemoveAt(live[1..], i - 1), align);
    }
  }

  lemma {:induction false} RemoveFootBytes(live: seq<Live>, i: nat, align: nat, x: int)
    requires align > 0 && i < |live|
    ensures Covers(Feet(live, align), x)
            <==> Footprint(live[i], align).Has(x) || Covers(Feet(RemoveAt(live, i), align), x)
    decreases i
  {
    if i > 0 {
      RemoveFootBytes(live[1..], i - 1, align, x);
      FeetCons(live[0], RemoveAt(live[1..], i - 1), align);
    }
  }

  lemma {:induction false} RemoveFootApart(live: seq<Live>, i: nat, align: nat)
    requires align > 0 && i < |live| && Apart(Feet(live, align))
    ensures Apart(Feet(RemoveAt(live, i), align))
    ensures NoByteShared([Footprint(live[i], align)], Feet(RemoveAt(live, i), align))
    decreases i
  {
    if i > 0 {
      var t := live[1..];
      var h, f := Footprint(live[0], align), Footprint(live[i], align);
      var gs := Feet(RemoveAt(t, i - 1), align);
      RemoveFootApart(t, i - 1, align);
      FeetCons(live[0], RemoveAt(t, i - 1), align);
      forall x
        ensures !(Covers([h], x) && Covers(gs, x))
        ensures !(Covers([f], x) && Covers([h] + gs, x))
      {
        RemoveFootBytes(t, i - 1, align, x);
        CoversOne(f, x);
        CoversOne(h, x);
        CoversCons(h, gs, x);
      }
    }
  }

  /** Freeing a live allocation keeps the invariant and returns exactly its footprint. */
  lemma FreeKeepsInv(s: State, i: nat)
    requires Inv(s) && i < |s.live|
    ensures Inv(Free(s, i))
    ensures var f := Footprint(s.live[i], s.align);
            && DisjointFrom(s.blocks, f) && f.size > 0 && f.addr > 0
            && (forall x :: Covers(Free(s, i).blocks, x) <==> Covers(s.blocks, x) || f.Has(x))
  {
    var f := Footprint(s.live[i], s.align);
    var fs, gs := Feet(s.live, s.align), Feet(RemoveAt(s.live, i), s.align);
    RemoveFoot(s.live, i, s.align);
    RemoveFootApart(s.live, i, s.align);
    forall x
      ensures Covers(Insert(s.blocks, f), x) <==> Covers(s.blocks, x) || f.Has(x)
      ensures f.Has(x) ==> !Covers(s.blocks, x)
      ensures !(Covers(Insert(s.blocks, f), x) && Covers(gs, x))
    {
      InsertCovers(s.blocks, f, x);
      RemoveFootBytes(s.live, i, s.align, x);
      CoversOne(f, x);
    }
    DisjointBytes(s.blocks, f);
    InsertKeeps(s.blocks, f, 0);
    InsertAligned(s.blocks, f, s.align);
    InsertBelow(s.blocks, f, ADDRESS_LIMIT);
  }

  /** Allocating and freeing the same pointer and size restores the heap, except for the high-water mark. */
  lemma AllocThenFree(s: State, size: nat, align: nat, offset: nat)
    requires Inv(s) && ValidAlign(s.align, align)
    requires Alloc(s, size, align, offset).1.Some?
    ensures var (s', p) := Alloc(s, size, align, offset);
            && s'.live[0] == Live(p.value, size)
            && Free(s', 0) == s.(maxused := s'.maxused)
  {
    var r := Prepare(s.align, size, align, offset);
    var k := FirstFit(r, s.blocks);
    var b := s.blocks[k];
    Placement(s, size, align, offset, k);
    var s' := Alloc(s, size, align, offset).0;
    TakeThenFree(s, k, PreSize(r, b), r.actual, Live(b.addr + PreSize(r, b) + (r.want - r.base), size), s');
  }

  lemma TakeThenFree(s: State, k: nat, pre: nat, taken: nat, l: Live, t: State)
    requires s.align > 0 && Canonical(s.blocks) && k < |s.blocks| && pre + taken <= s.blocks[k].size && taken > 0
    requires Footprint(l, s.align) == Block(s.blocks[k].addr + pre, taken)
    requires t.blocks == Split(s.blocks, k, pre, taken) && t.align == s.align && t.live == [l] + s.live
    ensures Free(t, 0) == t.(blocks := s.blocks, freemem := t.freemem + taken,
                             usedmem := t.usedmem - taken, live := s.live)
  {
    SplitThenInsert(s.blocks, k, pre, taken);
    assert RemoveAt([l] + s.live, 0) == s.live;
  }

  // Populating.

  ghost predicate Populatable(s: State, b: Block)
    requires s.align > 0
  {
    && b.size > 0 && b.addr % s.align == 0 && b.size % s.align == 0 && b.End() <= ADDRESS_LIMIT
    && NoByteShared(s.blocks, [b]) && NoByteShared([b], Feet(s.live, s.align))
  }

  /**
    Adding memory keeps the invariant exactly when the memory does not start at address
    zero; at address zero the memory is ignored and the usage counter drifts.
   */
  lemma PopulateExact(s: State, b: Block)
    requires Inv(s) && Populatable(s, b)
    ensures Inv(Populate(s, b)) <==> b.addr != 0
    ensures b.addr != 0 ==> forall x :: Covers(Populate(s, b).blocks, x) <==> Covers(s.blocks, x) || b.Has(x)
    ensures b.addr == 0 ==> Populate(s, b).blocks == s.blocks
  {
    if b.addr != 0 {
      forall x
        ensures Covers(Insert(s.blocks, b), x) <==> Covers(s.blocks, x) || b.Has(x)
        ensures b.Has(x) ==> !Covers(s.blocks, x)
        ensures !(Covers(Insert(s.blocks, b), x) && Covers(Feet(s.live, s.align), x))
      {
        InsertCovers(s.blocks, b, x);
        CoversOne(b, x);
      }
      DisjointBytes(s.blocks, b);
      InsertKeeps(s.blocks, b, 0);
      InsertAligned(s.blocks, b, s.align);
      InsertBelow(s.blocks, b, ADDRESS_LIMIT);
    }
  }

  // Runs.

  datatype Op =
    | OpPopulate(block: Block)
    | OpAlloc(size: nat, align: nat, offset: nat)
    | OpFree(index: nat)

  /** The operations a caller may perform in a given state. */
  ghost predicate Allowed(s: State, op: Op)
    requires s.align > 0
  {
    match op
    case OpPopulate(b) => b.addr != 0 && Populatable(s, b)
    case OpAlloc(size, align, offset) => ValidAlign(s.align, align)
    case OpFree(i) => i < |s.live|
  }

  ghost function Step(s: State, op: Op): State
    requires s.align > 0 && Allowed(s, op)
  {
    match op
    case OpPopulate(b) => Populate(s, b)
    case OpAlloc(size, align, offset) => Alloc(s, size, align, offset).0
    case OpFree(i) => Free(s, i)
  }

  /** Running `ops` from `s` is allowed at every step and ends in `t`. */
  ghost predicate Run(s: State, ops: seq<Op>, t: State)
    decreases |ops|
  {
    if ops == [] then s == t
    else s.align > 0 && Allowed(s, ops[0]) && Run(Step(s, ops[0]), ops[1..], t)
  }

  function Empty(align: nat): State {
    State(align, [], 0, 0, 0, [])
  }

  lemma StepKeepsInv(s: State, op: Op)
    requires Inv(s) && Allowed(s, op)
    ensures Inv(Step(s, op)) && Step(s, op).align == s.align
  {
    match op
    case OpPopulate(b) => PopulateExact(s, b);
    case OpAlloc(size, align, offset) => AllocKeepsInv(s, size, align, offset);
    case OpFree(i) => FreeKeepsInv(s, i);
  }

  /** Every state reached by populating, allocating and freeing satisfies the invariant. */
  lemma {:induction false} RunKeepsInv(s: State, ops: seq<Op>, t: State)
    requires Inv(s) && Run(s, ops, t)
    ensures Inv(t)
    decreases |ops|
  {
    if ops != [] {
      StepKeepsInv(s, ops[0]);
      RunKeepsInv(Step(s, ops[0]), ops[1..], t);
    }
  }

  // What each live allocation was asked for.

  /** A request: the alignment and the offset. */
  datatype Ask = Ask(align: nat, offset: nat)

  /** What a caller was promised: the pointer's residue, and all of the bytes if their number does not wrap. */
  predicate Granted(l: Live, a: Ask, align: nat)
    requires align > 0
  {
    && a.align > 0 && l.ptr % a.align == a.offset % a.align
    && (l.size < SIZE_SPACE && l.size + a.offset % a.align % align <= SIZE_SPACE ==>
          Footprint(l, align).addr <= l.ptr && l.ptr + l.size <= Footprint(l, align).End())
  }

  predicate AllGranted(live: seq<Live>, asks: seq<Ask>, align: nat)
    requires align > 0
  {
    if live == [] then asks == []
    else asks != [] && Granted(live[0], asks[0], align) && AllGranted(live[1..], asks[1..], align)
  }

  /** The requests behind the live allocations, after one more operation. */
  ghost function AsksAfter(s: State, op: Op, asks: seq<Ask>): seq<Ask>
    requires s.align > 0 && Allowed(s, op) && |asks| == |s.live|
  {
    match op
    case OpPopulate(_) => asks
    case OpAlloc(size, align, offset) => if Alloc(s, size, align, offset).1.Some? then [Ask(align, offset)] + asks else asks
    case OpFree(i) => RemoveAt(asks, i)
  }

  /** Running `ops` turns the requests `asks` into `after`. */
  ghost predicate RunAsks(s: State, ops: seq<Op>, asks: seq<Ask>, after: seq<Ask>)
    decreases |ops|
  {
    if ops == [] then asks == after
    else
      && s.align > 0 && Allowed(s, ops[0]) && |asks| == |s.live|
      && RunAsks(Step(s, ops[0]), ops[1..], AsksAfter(s, ops[0], asks), after)
  }

  lemma {:induction false} GrantedLength(live: seq<Live>, asks: seq<Ask>, align: nat)
    requires align > 0 && AllGranted(live, asks, align)
    ensures |live| == |asks|
  {
    if live != [] {
      GrantedLength(live[1..], asks[1..], align);
    }
  }

  lemma {:induction false} GrantedWithout(live: seq<Live>, asks: seq<Ask>, align: nat, i: nat)
    requires align > 0 && AllGranted(live, asks, align) && i < |live| == |asks|
    ensures AllGranted(RemoveAt(live, i), RemoveAt(asks, i), align)
  {
    if i > 0 {
      GrantedWithout(live[1..], asks[1..], align, i - 1);
      assert RemoveAt(live, i)[1..] == RemoveAt(live[1..], i - 1);
      assert RemoveAt(asks, i)[1..] == RemoveAt(asks[1..], i - 1);
    }
  }

  lemma AllocGranted(s: State, size: nat, align: nat, offset: nat)
    requires Inv(s) && ValidAlign(s.align, align) && Alloc(s, size, align, offset).1.Some?
    ensures Granted(Live(Alloc(s, size, align, offset).1.value, size), Ask(align, offset), s.align)
  {
    AllocAligned(s, size, align, offset);
    if align == 0 {
      ZeroAlignFails(s, size, offset);
    }
    if size < SIZE_SPACE {
      AllocCoversRequestExactly(s, size, align, offset);
    }
  }

  lemma StepGrants(s: State, op: Op, asks: seq<Ask>)
    requires Inv(s) && Allowed(s, op) && AllGranted(s.live, asks, s.align) && |asks| == |s.live|
    ensures AllGranted(Step(s, op).live, AsksAfter(s, op, asks), s.align)
  {
    match op
    case OpPopulate(b) =>
    case OpFree(i) => GrantedWithout(s.live, asks, s.align, i);
    case OpAlloc(size, align, offset) =>
      if Alloc(s, size, align, offset).1.Some? {
        var l, a := Live(Alloc(s, size, align, offset).1.value, size), Ask(align, offset);
        AllocGranted(s, size, align, offset);
        AllocTakesFootprint(s, size, align, offset);
        GrantedCons(l, s.live, a, asks, s.align);
      } else {
        AllocFails(s, size, align, offset);
      }
  }

  lemma GrantedCons(l: Live, live: seq<Live>, a: Ask, asks: seq<Ask>, align: nat)
    requires align > 0 && Granted(l, a, align) && AllGranted(live, asks, align)
    ensures AllGranted([l] + live, [a] + asks, align)
  {
    assert ([l] + live)[1..] == live && ([a] + asks)[1..] == asks;
  }

  /** Over every run, each live allocation keeps the residue and the room that its caller asked for. */
  lemma {:induction false} RunGrants(s: State, ops: seq<Op>, t: State, asks: seq<Ask>)
    returns (after: seq<Ask>)
    requires Inv(s) && Run(s, ops, t) && AllGranted(s.live, asks, s.align)
    ensures RunAsks(s, ops, asks, after) && AllGranted(t.live, after, s.align)
    decreases |ops|
  {
    GrantedLength(s.live, asks, s.align);
    if ops == [] {
      after := asks;
    } else {
      StepKeepsInv(s, ops[0]);
      StepGrants(s, ops[0], asks);
      after := RunGrants(Step(s, ops[0]), ops[1..], t, AsksAfter(s, ops[0], asks));
    }
  }

  lemma {:induction false} GrantedIndex(live: seq<Live>, asks: seq<Ask>, align: nat)
    requires align > 0 && AllGranted(live, asks, align)
    ensures |live| == |asks| && forall i | 0 <= i < |live| :: Granted(live[i], asks[i], align)
  {
    if live != [] {
      GrantedIndex(live[1..], asks[1..], align);
      assert forall i | 0 < i < |live| :: live[i] == live[1..][i - 1] && asks[i] == asks[1..][i - 1];
    }
  }

  /** What is true of a reachable heap, allocation by allocation and block by block; `asks` are the requests still served. */
  lemma ReachableHeap(align: nat, ops: seq<Op>, t: State) returns (asks: seq<Ask>)
    requires IsPow2(align) && 1 < align && 4 * align <= SIZE_SPACE && Run(Empty(align), ops, t)
    ensures RunAsks(Empty(align), ops, [], asks) && |asks| == |t.live|
    ensures forall i | 0 <= i < |t.live| :: Granted(t.live[i], asks[i], align)
    ensures forall i, j | 0 <= i < j < |t.blocks| :: t.blocks[i].End() < t.blocks[j].addr
    ensures forall i | 0 <= i < |t.blocks| ::
              t.blocks[i].size >= align && t.blocks[i].addr % align == 0 && t.blocks[i].size % align == 0
    ensures forall i, j | 0 <= i < j < |t.live| ::
              Footprint(t.live[i], align).Disjoint(Footprint(t.live[j], align))
    ensures forall i, j | 0 <= i < |t.blocks| && 0 <= j < |t.live| ::
              t.blocks[i].Disjoint(Footprint(t.live[j], align))
    ensures t.freemem == Total(t.blocks) && t.usedmem == Total(Feet(t.live, align)) <= t.maxused
  {
    asks := ReachableGrants(align, ops, t);
    ReachableBlocks(align, ops, t);
  }

  lemma ReachableGrants(align: nat, ops: seq<Op>, t: State) returns (asks: seq<Ask>)
    requires IsPow2(align) && 1 < align && 4 * align <= SIZE_SPACE && Run(Empty(align), ops, t)
    ensures RunAsks(Empty(align), ops, [], asks) && |asks| == |t.live|
    ensures forall i | 0 <= i < |t.live| :: Granted(t.live[i], asks[i], align)
  {
    EmptyInv(align);
    asks := RunGrants(Empty(align), ops, t, []);
    GrantedIndex(t.live, asks, align);
  }

  lemma ReachableBlocks(align: nat, ops: seq<Op>, t: State)
    requires IsPow2(align) && 1 < align && 4 * align <= SIZE_SPACE && Run(Empty(align), ops, t)
    ensures forall i, j | 0 <= i < j < |t.blocks| :: t.blocks[i].End() < t.blocks[j].addr
    ensures forall i | 0 <= i < |t.blocks| ::
              t.blocks[i].size >= align && t.blocks[i].addr % align == 0 && t.blocks[i].size % align == 0
    ensures forall i, j | 0 <= i < j < |t.live| ::
              Footprint(t.live[i], align).Disjoint(Footprint(t.live[j], align))
    ensures forall i, j | 0 <= i < |t.blocks| && 0 <= j < |t.live| ::
              t.blocks[i].Disjoint(Footprint(t.live[j], align))
    ensures t.freemem == Total(t.blocks) && t.usedmem == Total(Feet(t.live, align)) <= t.maxused
  {
    EmptyInv(align);
    RunKeepsInv(Empty(align), ops, t);
    RunAlign(Empty(align), ops, t);
    CanonicalIndex(t.blocks);
    AlignedIndex(t.blocks, align);
    forall i | 0 <= i < |t.blocks|
      ensures t.blocks[i].size >= align
    {
      MultiplesApart(0, t.blocks[i].size, align);
    }
    FeetDisjoint(t.live, align);
    forall i, j | 0 <= i < |t.blocks| && 0 <= j < |t.live|
      ensures t.blocks[i].Disjoint(Footprint(t.live[j], align))
    {
      FreeKeepsInv(t, j);
      DisjointIndex(t.blocks, Footprint(t.live[j], align));
    }
  }

  lemma EmptyInv(align: nat)
    requires IsPow2(align) && 1 < align && 4 * align <= SIZE_SPACE
    ensures Inv(Empty(align))
  {
  }

  lemma {:induction false} RunAlign(s: State, ops: seq<Op>, t: State)
    requires Run(s, ops, t)
    ensures t.align == s.align
    decreases |ops|
  {
    if ops != [] {
      RunAlign(Step(s, ops[0]), ops[1..], t);
    }
  }

  lemma {:induction false} FeetDisjoint(live: seq<Live>, align: nat)
    requires align > 0 && Apart(Feet(live, align)) && NonEmpty(Feet(live, align))
    ensures forall i, j | 0 <= i < j < |live| :: Footprint(live[i], align).Disjoint(Footprint(live[j], align))
  {
    if live != [] {
      FeetDisjoint(live[1..], align);
      var fs := Feet(live[1..], align);
      forall j | 0 < j < |live|
        ensures Footprint(live[0], align).Disjoint(Footprint(live[j], align))
      {
        FootOfIndex(live[1..], align, j - 1);
        HeadDisjoint(Footprint(live[0], align), fs, j - 1);
      }
      forall i, j | 0 < i < j < |live|
        ensures Footprint(live[i], align).Disjoint(Footprint(live[j], align))
      {
        assert live[1..][i - 1] == live[i] && live[1..][j - 1] == live[j];
      }
    }
  }

  lemma {:induction false} FootOfIndex(live: seq<Live>, align: nat, j: nat)
    requires align > 0 && j < |live|
    ensures j < |Feet(live, align)| && Feet(live, align)[j] == Footprint(live[j], align)
    ensures NonEmpty(Feet(live, align)) ==> Feet(live, align)[j].size > 0
  {
    if j > 0 {
      FootOfIndex(live[1..], align, j - 1);
    }
  }

  lemma HeadDisjoint(f: Block, fs: seq<Block>, j: nat)
    requires j < |fs| && NoByteShared([f], fs) && f.size > 0 && fs[j].size > 0
    ensures f.Disjoint(fs[j])
  {
    var x := if f.addr <= fs[j].addr then fs[j].addr else f.addr;
    CoversOne(f, x);
    CoversIndex(fs, x);
    assert fs[j].Has(x) ==> Covers(fs, x);
  }
}
