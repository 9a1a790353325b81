/** Where to move iPXE: the highest aligned slot in usable memory below 4 GiB. */
module Relocate {
  import opened Basics
  import opened Bits
  import opened Memmap

  const MAX32: nat := 0xffff_ffff
  const PAGE: nat := 4096

  /** The inaccessible part of the address space, as passed to memmap_update(). */
  function Beyond(max: nat): Known
    requires max <= TOP
  {
    var start := (max + 1) % WORD64;
    Known(start, (WORD64 - start) % WORD64, {Inaccessible})
  }

  /** Everything that the map is built from, in the order of the updates. */
  function Regions(tree: seq<Known>, max: nat, image: nat, memsz: nat, hdr: nat, fdtLen: nat): seq<Known>
    requires max <= TOP
  {
    tree + [Beyond(max), Known(image, memsz, {Used}), Known(hdr, fdtLen, {Reserved})]
  }

  /** The candidate that fdtmem_relocate() takes from a region: the highest aligned slot at its end, if that fits. */
  function Slot(s: Span, len: nat, align: nat, home: nat): nat
    requires align > 0
  {
    if Usable(s) && len <= s.max + 1 then
      var at := s.max + 1 - len - (s.max + 1 - len) % align;
      if at >= s.min then at else home
    else home
  }

  /** An aligned slot within one usable region. */
  predicate Fits(s: Span, len: nat, align: nat, at: nat)
    requires align > 0
  {
    Usable(s) && at % align == 0 && s.min <= at && at + len <= s.max + 1
  }

  /** The candidate is the highest slot, and is found whenever there is one. */
  lemma SlotIsHighest(s: Span, len: nat, align: nat, home: nat, at: nat)
    requires align > 0
    ensures Slot(s, len, align, home) == home || Fits(s, len, align, Slot(s, len, align, home))
    ensures Fits(s, len, align, at) ==> Fits(s, len, align, Slot(s, len, align, home)) && at <= Slot(s, len, align, home)
  {
    if Usable(s) && len <= s.max + 1 {
      var top := s.max + 1 - len;
      RoundDown(top, align);
      if Fits(s, len, align, at) && at > top - top % align {
        MultiplesApart(top - top % align, at, align);
      }
    }
  }

  /** The choice over the whole map: the last region that fits wins. */
  function Pick(w: seq<Span>, len: nat, align: nat, home: nat): nat
    requires align > 0
    decreases |w|
  {
    if w == [] then home else Pick(w[1..], len, align, Slot(w[0], len, align, home))
  }

  /** Regions follow each other. */
  predicate Rising(w: seq<Span>) {
    && (forall i | 0 <= i < |w| :: w[i].min <= w[i].max)
    && (forall i | 0 < i < |w| :: w[i - 1].max < w[i].min)
  }

  /** An aligned slot within one usable region of the map. */
  ghost predicate Fitted(w: seq<Span>, len: nat, align: nat, at: nat)
    requires align > 0
  {
    exists s :: s in w && Fits(s, len, align, at)
  }

  /** The choice is the current address or a slot. */
  lemma {:induction false} PickFits(w: seq<Span>, len: nat, align: nat, home: nat)
    requires align > 0
    ensures Pick(w, len, align, home) == home || Fitted(w, len, align, Pick(w, len, align, home))
    decreases |w|
  {
    if w != [] {
      var rest, first := w[1..], Slot(w[0], len, align, home);
      SlotIsHighest(w[0], len, align, home, first);
      PickFits(rest, len, align, first);
      FittedMore(w, len, align, Pick(w, len, align, home));
      assert w[0] in w;
    }
  }

  lemma FittedMore(w: seq<Span>, len: nat, align: nat, at: nat)
    requires align > 0 && w != []
    ensures Fitted(w[1..], len, align, at) ==> Fitted(w, len, align, at)
  {
    if Fitted(w[1..], len, align, at) {
      var s :| s in w[1..] && Fits(s, len, align, at);
      assert s in w;
    }
  }

  /** When there is a slot at all, the choice is a slot, and no lower. */
  lemma {:induction false} PickIsHighest(w: seq<Span>, len: nat, align: nat, home: nat, s: Span, at: nat)
    requires align > 0 && Rising(w) && s in w && Fits(s, len, align, at)
    ensures at <= Pick(w, len, align, home) && Fitted(w, len, align, Pick(w, len, align, home))
    decreases |w|
  {
    var rest, first := w[1..], Slot(w[0], len, align, home);
    var r := Pick(rest, len, align, first);
    FittedMore(w, len, align, r);
    if s in rest {
      PickIsHighest(rest, len, align, first, s, at);
    } else {
      SlotIsHighest(w[0], len, align, home, at);
      PickFits(rest, len, align, first);
      if r == first {
        assert w[0] in w;
      } else {
        var t :| t in rest && Fits(t, len, align, r);
        RisingHead(w, t);
      }
    }
  }

  lemma RisingHead(w: seq<Span>, t: Span)
    requires Rising(w) && w != [] && t in w[1..]
    ensures w[0].max < t.min
  {
    var i :| 0 < i < |w| && w[i] == t;
    RisingUpTo(w, i);
  }

  lemma {:induction false} RisingUpTo(w: seq<Span>, i: nat)
    requires Rising(w) && 0 < i < |w|
    ensures w[0].max < w[i].min
  {
    if i > 1 {
      RisingUpTo(w, i - 1);
    }
  }

  lemma WalkRises(ks: seq<Known>)
    requires AllValid(ks)
    ensures Rising(Walk(ks, 0))
  {
    forall i | 0 <= i < |Walk(ks, 0)|
      ensures Walk(ks, 0)[i].min <= Walk(ks, 0)[i].max && (i > 0 ==> Walk(ks, 0)[i - 1].max < Walk(ks, 0)[i].min)
    {
      WalkTiles(ks, 0, i);
      if i > 0 {
        WalkTiles(ks, 0, i - 1);
      }
    }
  }

  /** The mask arithmetic of the candidate address, in 64 bits. */
  lemma MaskSlot(x: nat, align: nat, k: nat)
    requires align == Pow2(k)
    ensures align > 0 && AndNot(x, align - 1) == x - x % align
  {
    AndNotMask(x, k);
  }

  lemma BeyondValid(max: nat)
    requires max <= TOP
    ensures Beyond(max).Valid()
    ensures forall a: nat | a <= TOP :: Beyond(max).Has(a) <==> max < a
  {
  }

  predicate Arguments(tree: seq<Known>, max: nat, image: nat, memsz: nat, hdr: nat, fdtLen: nat) {
    AllValid(tree) && max <= TOP && image <= TOP && memsz <= TOP && hdr <= TOP && fdtLen <= TOP
  }

  lemma RegionsValid(tree: seq<Known>, max: nat, image: nat, memsz: nat, hdr: nat, fdtLen: nat)
    requires Arguments(tree, max, image, memsz, hdr, fdtLen)
    ensures AllValid(Regions(tree, max, image, memsz, hdr, fdtLen))
  {
    BeyondValid(max);
  }

  lemma Wraps(max: nat, next: nat, len: nat)
    requires max <= TOP && next == (max + 1) % WORD64 && 0 < len <= TOP
    ensures next == 0 || next >= len <==> len <= max + 1
    ensures len <= max + 1 ==> (next + WORD64 - len) % WORD64 == max + 1 - len
  {
  }

  /** The body of the loop of fdtmem_relocate(), in 64-bit arithmetic. */
  method Consider(s: Span, next: nat, len: nat, align: nat, home: nat, ghost k: nat) returns (best: nat)
    requires s.min <= s.max <= TOP && next == (s.max + 1) % WORD64 && 0 < len <= TOP && align == Pow2(k) && align > 0
    ensures best == Slot(s, len, align, home)
  {
    best := home;
    Wraps(s.max, next, len);
    if Usable(s) && (next == 0 || next >= len) {
      var try := (next + WORD64 - len) % WORD64;
      MaskSlot(try, align, k);
      try := AndNot(try, align - 1);
      if try >= s.min {
        best := try;
      }
    }
  }

  /** The loop of fdtmem_relocate(). */
  method ChooseAddress(ks: seq<Known>, image: nat, len: nat, align: nat, ghost w: seq<Span>, ghost k: nat) returns (best: nat)
    requires AllValid(ks) && Tiling(ks, w) && 0 < len <= TOP && align == Pow2(k) && align > 0
    ensures best == Pick(w, len, align, image)
  {
    best := image;
    var addr, next := 0, 1;
    ghost var n := 0;
    assert w[0..] == w;
    while next != 0
      invariant n <= |w| && (if next != 0 then n < |w| && addr == w[n].min else n == |w|)
      invariant Pick(w[n..], len, align, best) == Pick(w, len, align, image)
      decreases |w| - n
    {
      assert Tile(ks, w, n);
      var s := DescribeRegion(ks, addr);
      assert w[n..][1..] == w[n + 1..] && w[n..][0] == s;
      next := (s.max + 1) % WORD64;
      best := Consider(s, next, len, align, best, k);
      addr := next;
      n := n + 1;
    }
  }

  /** fdtmem_len() */
  function Needed(memsz: nat, fdtLen: nat): nat {
    (memsz + fdtLen + PAGE - 1) / PAGE * PAGE
  }

  lemma {:induction false} FlagsInAppend(ks: seq<Known>, js: seq<Known>, a: nat)
    ensures FlagsAt(ks + js, a) == FlagsAt(ks, a) + FlagsAt(js, a)
  {
    if ks == [] {
      assert ks + js == js;
    } else {
      FlagsInAppend(ks[1..], js, a);
      assert (ks + js)[1..] == ks[1..] + js;
    }
  }

  /** What it means for an address to be free: memory by the device tree, accessible, and in neither the image nor the device tree. */
  lemma FreeMeans(tree: seq<Known>, max: nat, image: nat, memsz: nat, hdr: nat, fdtLen: nat, a: nat)
    requires Arguments(tree, max, image, memsz, hdr, fdtLen) && a <= TOP
    ensures FlagsAt(Regions(tree, max, image, memsz, hdr, fdtLen), a) == {Memory} <==>
            && FlagsAt(tree, a) == {Memory} && a <= max
            && !Known(image, memsz, {Used}).Has(a) && !Known(hdr, fdtLen, {Reserved}).Has(a)
  {
    var x, y, z := Beyond(max), Known(image, memsz, {Used}), Known(hdr, fdtLen, {Reserved});
    FlagsInAppend(tree, [x, y, z], a);
    assert [x, y, z][1..] == [y, z] && [y, z][1..] == [z] && [z][1..] == [];
    assert FlagsAt([z], a) == (if z.Has(a) then {Reserved} else {}) + FlagsAt([], a);
    assert FlagsAt([y, z], a) == (if y.Has(a) then {Used} else {}) + FlagsAt([z], a);
    assert FlagsAt([x, y, z], a) == (if x.Has(a) then {Inaccessible} else {}) + FlagsAt([y, z], a);
    BeyondValid(max);
    assert x.Has(a) <==> Inaccessible in FlagsAt([x, y, z], a);
    assert y.Has(a) <==> Used in FlagsAt([x, y, z], a);
    assert z.Has(a) <==> Reserved in FlagsAt([x, y, z], a);
    assert Memory !in FlagsAt([x, y, z], a);
  }

  /** An address is free for the image to move to. */
  predicate Free(tree: seq<Known>, max: nat, image: nat, memsz: nat, hdr: nat, fdtLen: nat, a: nat) {
    && FlagsAt(tree, a) == {Memory} && a <= max
    && !Known(image, memsz, {Used}).Has(a) && !Known(hdr, fdtLen, {Reserved}).Has(a)
  }

  /**
    fdtmem_relocate(): the address is the current one or an aligned one; in the latter
    case every byte of the new place is free if the known regions do not clash, and every
    byte but the last in any case. No aligned place within one region of the map is
    higher. Without a device tree the address is the current one.
   */
  method RelocateImage(tree: Option<(seq<Known>, nat)>, max: nat, image: nat, memsz: nat, hdr: nat, align: nat, ghost k: nat)
    returns (best: nat)
    requires align == Pow2(k) && 0 < memsz
    requires tree.Some? ==> Arguments(tree.value.0, max, image, memsz, hdr, tree.value.1) && Needed(memsz, tree.value.1) <= TOP
    ensures align > 0
    ensures tree.None? ==> best == image
    ensures tree.Some? ==>
      var cap, len := if max > MAX32 then MAX32 else max, Needed(memsz, tree.value.1);
      && Placed(tree.value.0, cap, image, memsz, hdr, tree.value.1, len, align, best)
  {
    MaskSlot(0, align, k);
    if tree.None? {
      return image;
    }
    var len := Needed(memsz, tree.value.1);
    var cap := if max > MAX32 then MAX32 else max;
    RegionsValid(tree.value.0, cap, image, memsz, hdr, tree.value.1);
    var ks := Regions(tree.value.0, cap, image, memsz, hdr, tree.value.1);
    WalkTiling(ks);
    best := ChooseAddress(ks, image, len, align, Walk(ks, 0), k);
    PickIsPlaced(tree.value.0, cap, image, memsz, hdr, tree.value.1, len, align);
  }

  /** The place chosen for `len` bytes. */
  ghost predicate Placed(tree: seq<Known>, max: nat, image: nat, memsz: nat, hdr: nat, fdtLen: nat, len: nat, align: nat, at: nat)
    requires align > 0 && Arguments(tree, max, image, memsz, hdr, fdtLen)
  {
    RegionsValid(tree, max, image, memsz, hdr, fdtLen);
    var ks := Regions(tree, max, image, memsz, hdr, fdtLen);
    && (at == image || at % align == 0)
    && (at == image || forall a: nat | at <= a < at + len ::
          Free(tree, max, image, memsz, hdr, fdtLen, a) || (a == at + len - 1 && Clashing(ks)))
    && (forall b: nat | Fitted(Walk(ks, 0), len, align, b) :: b <= at)
  }

  lemma PlaceByte(tree: seq<Known>, max: nat, image: nat, memsz: nat, hdr: nat, fdtLen: nat, ks: seq<Known>, s: Span, a: nat)
    requires Arguments(tree, max, image, memsz, hdr, fdtLen) && ks == Regions(tree, max, image, memsz, hdr, fdtLen)
    requires AllValid(ks) && s in Walk(ks, 0) && Usable(s) && s.min <= a <= s.max
    ensures Free(tree, max, image, memsz, hdr, fdtLen, a) || (a == s.max && Clashing(ks))
  {
    SlotByte(ks, s, a);
    FreeMeans(tree, max, image, memsz, hdr, fdtLen, a);
  }

  lemma PickIsPlaced(tree: seq<Known>, max: nat, image: nat, memsz: nat, hdr: nat, fdtLen: nat, len: nat, align: nat)
    requires align > 0 && len > 0 && Arguments(tree, max, image, memsz, hdr, fdtLen)
    requires AllValid(Regions(tree, max, image, memsz, hdr, fdtLen))
    ensures Placed(tree, max, image, memsz, hdr, fdtLen, len, align,
                   Pick(Walk(Regions(tree, max, image, memsz, hdr, fdtLen), 0), len, align, image))
  {
    var ks := Regions(tree, max, image, memsz, hdr, fdtLen);
    var w := Walk(ks, 0);
    var at := Pick(w, len, align, image);
    WalkRises(ks);
    PickFits(w, len, align, image);
    forall b: nat | Fitted(w, len, align, b)
      ensures b <= at
    {
      var s :| s in w && Fits(s, len, align, b);
      PickIsHighest(w, len, align, image, s, b);
    }
    if at != image {
      var s :| s in w && Fits(s, len, align, at);
      forall a: nat | at <= a < at + len
        ensures Free(tree, max, image, memsz, hdr, fdtLen, a) || (a == at + len - 1 && Clashing(ks))
      {
        PlaceByte(tree, max, image, memsz, hdr, fdtLen, ks, s, a);
      }
    }
  }

  /** A byte of a region of the walk has the flags of the region, unless it is the last and known regions clash. */
  lemma SlotByte(ks: seq<Known>, s: Span, a: nat)
    requires AllValid(ks) && s in Walk(ks, 0) && s.min <= a <= s.max
    ensures a <= TOP
    ensures FlagsAt(ks, a) == s.flags || (a == s.max && Clashing(ks))
  {
    var i :| 0 <= i < |Walk(ks, 0)| && Walk(ks, 0)[i] == s;
    WalkTiles(ks, 0, i);
    if a < s.max {
      DescribeAlmost(ks, s.min, a);
    } else if !Clashing(ks) {
      WalkIsMap(ks, i, a);
    }
  }

  /** Even addresses and sizes, and an odd highest address, are enough. */
  lemma EvenPlaces(tree: seq<Known>, max: nat, image: nat, memsz: nat, hdr: nat, fdtLen: nat)
    requires Arguments(tree, max, image, memsz, hdr, fdtLen) && Even(tree)
    requires max % 2 == 1 && image % 2 == 0 && memsz % 2 == 0 && hdr % 2 == 0 && fdtLen % 2 == 0
    ensures !Clashing(Regions(tree, max, image, memsz, hdr, fdtLen))
  {
    RegionsValid(tree, max, image, memsz, hdr, fdtLen);
    EvenNoClash(Regions(tree, max, image, memsz, hdr, fdtLen));
  }

  /** Memory up to 2 MiB, and a reservation that starts at its last byte. */
  predicate Sample(tree: seq<Known>, image: nat, hdr: nat, ks: seq<Known>) {
    && tree == [Known(0, 0x20_0000, {Memory}), Known(0x1f_ffff, 0x1000, {Reserved})]
    && image == 0x40_0000 && hdr == 0x50_0000 && ks == Regions(tree, MAX32, image, 0x1000, hdr, 0x1000)
  }

  /** The place chosen there for two pages ends with that byte. */
  lemma LastByteTaken(tree: seq<Known>, image: nat, hdr: nat, ks: seq<Known>)
    requires Sample(tree, image, hdr, ks)
    ensures AllValid(ks) && Needed(0x1000, 0x1000) == 0x2000
    ensures Pick(Walk(ks, 0), 0x2000, 0x1000, image) == 0x1f_e000
    ensures !Free(tree, MAX32, image, 0x1000, hdr, 0x1000, 0x1f_ffff)
  {
    assert Needed(0x1000, 0x1000) == 0x2000 by {
      assert 0x2fff / PAGE == 2;
    }
    RegionsValid(tree, MAX32, image, 0x1000, hdr, 0x1000);
    TakenFlags(tree, image, hdr);
    FirstRegion(tree, image, hdr, ks);
    var w := Walk(ks, 0);
    WalkRises(ks);
    assert w[0] in w && Fits(w[0], 0x2000, 0x1000, 0x1f_e000);
    PickIsHighest(w, 0x2000, 0x1000, image, w[0], 0x1f_e000);
    var t :| t in w && Fits(t, 0x2000, 0x1000, Pick(w, 0x2000, 0x1000, image));
    NoneHigher(tree, image, hdr, ks, t, Pick(w, 0x2000, 0x1000, image));
  }

  lemma NoneHigher(tree: seq<Known>, image: nat, hdr: nat, ks: seq<Known>, t: Span, at: nat)
    requires Sample(tree, image, hdr, ks) && AllValid(ks) && t in Walk(ks, 0) && Fits(t, 0x2000, 0x1000, at)
    ensures at <= 0x1f_e000
  {
    var a := at + 0x1ffe;
    SlotByte(ks, t, a);
    FreeMeans(tree, MAX32, image, 0x1000, hdr, 0x1000, a);
    TreeMemory(tree, a);
  }

  lemma TreeMemory(tree: seq<Known>, a: nat)
    requires tree == [Known(0, 0x20_0000, {Memory}), Known(0x1f_ffff, 0x1000, {Reserved})]
    ensures FlagsAt(tree, a) == (if a < 0x20_0000 then {Memory} else {}) + (if 0x1f_ffff <= a < 0x20_0fff then {Reserved} else {})
  {
    assert tree[1..] == [tree[1]] && tree[1..][1..] == [];
    assert FlagsAt(tree[1..], a) == (if tree[1].Has(a) then tree[1].flags else {}) + FlagsAt([], a);
  }

  lemma TakenFlags(tree: seq<Known>, image: nat, hdr: nat)
    requires tree == [Known(0, 0x20_0000, {Memory}), Known(0x1f_ffff, 0x1000, {Reserved})]
    ensures !Free(tree, MAX32, image, 0x1000, hdr, 0x1000, 0x1f_ffff)
  {
    TreeMemory(tree, 0x1f_ffff);
    assert Reserved in FlagsAt(tree, 0x1f_ffff);
  }

  lemma FirstRegion(tree: seq<Known>, image: nat, hdr: nat, ks: seq<Known>)
    requires Sample(tree, image, hdr, ks) && AllValid(ks)
    ensures Walk(ks, 0)[0] == Span(0, 0x1f_ffff, {Memory})
  {
    TreeMemory(tree, 0);
    FreeMeans(tree, MAX32, image, 0x1000, hdr, 0x1000, 0);
    var s := Span(0, TOP, {});
    assert Update(s, ks[0]) == Span(0, 0x1f_ffff, {Memory});
    FoldKeeps(Update(s, ks[0]), ks[1..]);
    DescribeBasics(ks, 0);
  }
}
