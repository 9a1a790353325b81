/** The system memory map: describing the region around an address from a list of known regions. */
module Memmap {

  /** The highest 64-bit address. */
  const TOP: nat := 0xffff_ffff_ffff_ffff

  datatype Flag = Memory | Reserved | Used | Inaccessible

  /** A known region, as given to memmap_update(). */
  datatype Known = Known(start: nat, size: nat, flags: set<Flag>) {
    predicate Valid() {
      start <= TOP && size <= TOP
    }

    /** The last address of a region that is not empty, cut off at the end of the address space. */
    function Last(): nat
      requires size > 0
    {
      if start + size - 1 > TOP then TOP else start + size - 1
    }

    predicate Has(a: nat) {
      size > 0 && start <= a <= Last()
    }
  }

  /** struct memmap_region */
  datatype Span = Span(min: nat, max: nat, flags: set<Flag>)

  /** memmap_update() */
  function Update(s: Span, k: Known): Span {
    if k.size == 0 || k.Last() < s.min || k.start > s.max then s
    else if k.start <= s.min then
      Span(s.min, if k.Last() < s.max then k.Last() else s.max, s.flags + k.flags)
    else if k.start < s.max then
      Span(s.min, k.start - 1, s.flags)
    else s
  }

  /** The region ends just where the known one starts: memmap_update() then leaves its last address wrongly included. */
  predicate Touches(s: Span, k: Known) {
    k.size > 0 && s.min < k.start == s.max
  }

  /** A known region covers all of the described one or none of it. */
  ghost predicate Uniform(s: Span, k: Known) {
    forall a: nat | s.min <= a <= s.max :: k.Has(a) <==> k.Has(s.min)
  }

  /** One update makes the known region uniform over the described one exactly if it does not start at its last address. */
  lemma UpdateExact(s: Span, k: Known)
    requires s.min <= s.max <= TOP && k.Valid()
    ensures var r := Update(s, k); r.min == s.min <= r.max <= s.max
    ensures Uniform(Update(s, k), k) <==> !Touches(s, k)
  {
    var r := Update(s, k);
    if Touches(s, k) {
      assert k.Has(r.max) && !k.Has(r.min);
    }
  }

  /** All updates in turn. */
  function Fold(s: Span, ks: seq<Known>): Span
    decreases |ks|
  {
    if ks == [] then s else Fold(Update(s, ks[0]), ks[1..])
  }

  /** memmap_init() and the updates. */
  function Describe(ks: seq<Known>, min: nat): Span {
    Fold(Span(min, TOP, {}), ks)
  }

  /** The flags of all known regions at an address. */
  function FlagsAt(ks: seq<Known>, a: nat): set<Flag> {
    if ks == [] then {} else (if ks[0].Has(a) then ks[0].flags else {}) + FlagsAt(ks[1..], a)
  }

  predicate AllValid(ks: seq<Known>) {
    forall k | k in ks :: k.Valid()
  }

  /** What bounds the described region. */
  predicate Bounds(k: Known, min: nat, max: nat) {
    k.size > 0 && if k.start <= min then min <= k.Last() == max else k.start - 1 == max < TOP - 1
  }

  lemma {:induction false} FoldBounds(s: Span, ks: seq<Known>)
    requires s.min <= s.max <= TOP && AllValid(ks)
    ensures var r := Fold(s, ks); r.min == s.min <= r.max <= s.max
    ensures forall k | k in ks && k.size > 0 && k.start > s.min :: Fold(s, ks).max <= k.start
    ensures forall k | k in ks && k.Has(s.min) :: Fold(s, ks).max <= k.Last()
    ensures Fold(s, ks).max == s.max || exists k :: k in ks && Bounds(k, s.min, Fold(s, ks).max)
    decreases |ks|
  {
    if ks != [] {
      var u := Update(s, ks[0]);
      assert ks[0] in ks;
      UpdateExact(s, ks[0]);
      FoldBounds(u, ks[1..]);
      var r := Fold(u, ks[1..]);
      forall k | k in ks
        ensures k.size > 0 && k.start > s.min ==> r.max <= k.start
        ensures k.Has(s.min) ==> r.max <= k.Last()
      {
        if k !in ks[1..] {
          assert k == ks[0];
        }
      }
      if r.max != s.max && r.max == u.max {
        assert Bounds(ks[0], s.min, r.max);
      }
    }
  }

  lemma {:induction false} FoldFlags(s: Span, ks: seq<Known>)
    requires s.min <= s.max <= TOP && AllValid(ks)
    ensures Fold(s, ks).flags == s.flags + FlagsAt(ks, s.min)
    decreases |ks|
  {
    if ks != [] {
      assert ks[0] in ks;
      UpdateExact(s, ks[0]);
      FoldFlags(Update(s, ks[0]), ks[1..]);
    }
  }

  /** A known region starts at the last address of the described one. */
  ghost predicate Spoilt(ks: seq<Known>, s: Span) {
    exists k :: k in ks && Touches(s, k)
  }

  lemma DescribeBasics(ks: seq<Known>, min: nat)
    requires AllValid(ks) && min <= TOP
    ensures var r := Describe(ks, min);
            && r.min == min <= r.max <= TOP && r.flags == FlagsAt(ks, min)
            && ((forall k | k in ks :: Uniform(r, k)) <==> !Spoilt(ks, r))
  {
    var r := Describe(ks, min);
    FoldBounds(Span(min, TOP, {}), ks);
    FoldFlags(Span(min, TOP, {}), ks);
    if k :| k in ks && Touches(r, k) {
      assert k.Has(r.max) && !k.Has(r.min);
    }
  }

  // When a description can go wrong.

  /** The same known regions in another order. */
  predicate SameRegions(ks: seq<Known>, js: seq<Known>) {
    multiset(ks) == multiset(js)
  }

  lemma SameMembers(ks: seq<Known>, js: seq<Known>)
    requires SameRegions(ks, js)
    ensures forall k :: k in ks <==> k in js
  {
    forall k
      ensures k in ks <==> k in js
    {
      assert k in ks <==> k in multiset(ks);
      assert k in js <==> k in multiset(js);
    }
  }

  /** Nothing changes between `min` and `m`: what covers `min` reaches `m`, and nothing starts in between. */
  ghost predicate Quiet(ks: seq<Known>, min: nat, m: nat) {
    forall r | r in ks && r.size > 0 :: (r.Has(min) ==> m <= r.Last()) && (min < r.start ==> m <= r.start)
  }

  /** `j` makes `m` the last address of the description of `min`. */
  predicate EndsAt(j: Known, min: nat, m: nat) {
    j.size > 0 && ((j.Has(min) && j.Last() == m) || j.start == m + 1 < TOP)
  }

  /** `k` is the next to start after `min`, and starts at an address that something else makes the last. */
  ghost predicate Culprit(ks: seq<Known>, k: Known, min: nat) {
    && k in ks && k.size > 0 && min < k.start && Quiet(ks, min, k.start)
    && (k.start == TOP || exists j :: j in ks && EndsAt(j, min, k.start))
  }

  ghost predicate Spoilable(ks: seq<Known>, min: nat) {
    exists k :: Culprit(ks, k, min)
  }

  lemma SpoiltIsSpoilable(ks: seq<Known>, min: nat)
    requires AllValid(ks) && min <= TOP && Spoilt(ks, Describe(ks, min))
    ensures Spoilable(ks, min)
  {
    FoldBounds(Span(min, TOP, {}), ks);
    var r := Describe(ks, min);
    var k :| k in ks && Touches(r, k);
    if r.max != TOP {
      var j :| j in ks && Bounds(j, min, r.max);
      assert j.Valid();
      assert EndsAt(j, min, k.start);
    }
    assert Culprit(ks, k, min);
  }

  lemma {:induction false} FoldKeeps(s: Span, ks: seq<Known>)
    requires s.min <= s.max <= TOP && AllValid(ks) && Quiet(ks, s.min, s.max)
    ensures Fold(s, ks).max == s.max
    decreases |ks|
  {
    if ks != [] {
      assert ks[0] in ks;
      assert Update(s, ks[0]).max == s.max;
      FoldKeeps(Update(s, ks[0]), ks[1..]);
    }
  }

  /** The same known regions with the one at `i` first. */
  function Promote(ks: seq<Known>, i: nat): (r: seq<Known>)
    requires i < |ks|
    ensures SameRegions(ks, r)
  {
    assert ks == ks[..i] + [ks[i]] + ks[i + 1..];
    [ks[i]] + (ks[..i] + ks[i + 1..])
  }

  /** In an order that starts with what makes `k.start` the last address, `k` is overlooked. */
  lemma PromoteSpoils(ks: seq<Known>, k: Known, i: nat, min: nat)
    requires AllValid(ks) && min <= TOP && Culprit(ks, k, min) && i < |ks|
    requires k.start == TOP || EndsAt(ks[i], min, k.start)
    ensures Describe(Promote(ks, i), min).max == k.start
  {
    var js, s := Promote(ks, i), Span(min, TOP, {});
    SameMembers(ks, js);
    if k.start == TOP {
      FoldKeeps(s, js);
    } else {
      assert ks[i] in ks;
      var u := Update(s, ks[i]);
      assert u.min == min && u.max == k.start;
      assert js[1..] == ks[..i] + ks[i + 1..];
      assert forall r | r in js[1..] :: r in js;
      FoldKeeps(u, js[1..]);
    }
  }

  /** An order of the known regions that spoils the description. */
  lemma SpoilingOrder(ks: seq<Known>, min: nat) returns (js: seq<Known>)
    requires AllValid(ks) && min <= TOP && Spoilable(ks, min)
    ensures SameRegions(ks, js) && Spoilt(js, Describe(js, min))
  {
    var k :| Culprit(ks, k, min);
    var i := CulpritIndex(ks, k, min);
    PromoteSpoils(ks, k, i, min);
    js := Promote(ks, i);
    SameMembers(ks, js);
    FoldBounds(Span(min, TOP, {}), js);
    assert Touches(Describe(js, min), k);
  }

  lemma CulpritIndex(ks: seq<Known>, k: Known, min: nat) returns (i: nat)
    requires Culprit(ks, k, min)
    ensures i < |ks| && (k.start == TOP || EndsAt(ks[i], min, k.start))
  {
    if k.start == TOP {
      i := 0;
    } else {
      var j :| j in ks && EndsAt(j, min, k.start);
      i :| 0 <= i < |ks| && ks[i] == j;
    }
  }

  /** Every known region covers all or none of the described region. */
  ghost predicate Right(ks: seq<Known>, min: nat) {
    forall k | k in ks :: Uniform(Describe(ks, min), k)
  }

  /** The description is right in every order of the known regions if and only if it is not spoilable. */
  lemma DescribeExact(ks: seq<Known>, min: nat)
    requires AllValid(ks) && min <= TOP
    ensures (forall js | SameRegions(ks, js) :: Right(js, min)) <==> !Spoilable(ks, min)
  {
    if Spoilable(ks, min) {
      var js := SpoilingOrder(ks, min);
      SameMembers(ks, js);
      DescribeBasics(js, min);
      assert !Right(js, min);
    } else {
      forall js | SameRegions(ks, js)
        ensures Right(js, min)
      {
        SameMembers(ks, js);
        SpoilableSame(ks, js, min);
        DescribeBasics(js, min);
        if Spoilt(js, Describe(js, min)) {
          SpoiltIsSpoilable(js, min);
        }
      }
    }
  }

  lemma SpoilableSame(ks: seq<Known>, js: seq<Known>, min: nat)
    requires forall k :: k in ks <==> k in js
    ensures Spoilable(js, min) ==> Spoilable(ks, min)
  {
    if Spoilable(js, min) {
      var k :| Culprit(js, k, min);
      assert Culprit(ks, k, min);
    }
  }

  lemma {:induction false} SameFlags(ks: seq<Known>, a: nat, b: nat)
    requires forall k | k in ks :: k.Has(a) <==> k.Has(b)
    ensures FlagsAt(ks, a) == FlagsAt(ks, b)
  {
    if ks != [] {
      assert ks[0] in ks;
      SameFlags(ks[1..], a, b);
    }
  }

  /** Unless it is spoilable, the described region has the same flags throughout, and it could not be longer. */
  lemma DescribeSound(ks: seq<Known>, min: nat)
    requires AllValid(ks) && min <= TOP && !Spoilable(ks, min)
    ensures var r := Describe(ks, min);
            && (forall a: nat | min <= a <= r.max :: FlagsAt(ks, a) == r.flags)
            && (r.max == TOP || exists k :: k in ks && !(k.Has(min) <==> k.Has(r.max + 1)))
  {
    var r := Describe(ks, min);
    DescribeBasics(ks, min);
    if Spoilt(ks, r) {
      SpoiltIsSpoilable(ks, min);
    }
    forall a: nat | min <= a <= r.max
      ensures FlagsAt(ks, a) == r.flags
    {
      forall k | k in ks
        ensures k.Has(a) <==> k.Has(min)
      {
        assert Uniform(r, k);
      }
      SameFlags(ks, a, min);
    }
    FoldBounds(Span(min, TOP, {}), ks);
    if r.max != TOP {
      var k :| k in ks && Bounds(k, min, r.max);
      assert k.Valid();
      assert !(k.Has(min) <==> k.Has(r.max + 1));
    }
  }

  /** Spoilt or not, all but the last address of the described region has its flags. */
  lemma DescribeAlmost(ks: seq<Known>, min: nat, a: nat)
    requires AllValid(ks) && min <= a < Describe(ks, min).max && min <= TOP
    ensures FlagsAt(ks, a) == Describe(ks, min).flags
  {
    DescribeBasics(ks, min);
    FoldBounds(Span(min, TOP, {}), ks);
    SameFlags(ks, a, min);
  }

  // The order of the known regions.

  lemma {:induction false} FlagsOf(ks: seq<Known>, a: nat, f: Flag)
    ensures f in FlagsAt(ks, a) <==> exists k :: k in ks && k.Has(a) && f in k.flags
  {
    if ks != [] {
      FlagsOf(ks[1..], a, f);
      assert forall k :: k in ks <==> k == ks[0] || k in ks[1..];
    }
  }

  lemma NoLonger(ks: seq<Known>, js: seq<Known>, min: nat)
    requires AllValid(ks) && AllValid(js) && min <= TOP && (forall k :: k in ks <==> k in js)
    requires !Spoilable(js, min)
    ensures Describe(js, min).max <= Describe(ks, min).max
  {
    if Spoilt(js, Describe(js, min)) {
      SpoiltIsSpoilable(js, min);
    }
    FoldBounds(Span(min, TOP, {}), ks);
    FoldBounds(Span(min, TOP, {}), js);
  }

  /** The description does not depend on the order, if it is not spoilable. */
  lemma OrderIrrelevant(ks: seq<Known>, js: seq<Known>, min: nat)
    requires AllValid(ks) && SameRegions(ks, js) && min <= TOP && !Spoilable(ks, min)
    ensures Describe(ks, min) == Describe(js, min)
  {
    SameMembers(ks, js);
    SpoilableSame(ks, js, min);
    NoLonger(ks, js, min);
    NoLonger(js, ks, min);
    DescribeBasics(ks, min);
    DescribeBasics(js, min);
    forall f
      ensures f in FlagsAt(ks, min) <==> f in FlagsAt(js, min)
    {
      FlagsOf(ks, min, f);
      FlagsOf(js, min, f);
    }
  }

  /** Two regions that meet in one address: the result depends on their order. */
  lemma OrderMatters()
    ensures var a, b := Known(0, 0x1000, {Memory}), Known(0xfff, 0x1000, {Reserved});
            && SameRegions([a, b], [b, a])
            && Describe([a, b], 0) == Span(0, 0xfff, {Memory}) && FlagsAt([a, b], 0xfff) == {Memory, Reserved}
            && Describe([b, a], 0) == Span(0, 0xffe, {Memory})
  {
    var a, b := Known(0, 0x1000, {Memory}), Known(0xfff, 0x1000, {Reserved});
    var s := Span(0, TOP, {});
    assert Update(s, a) == Span(0, 0xfff, {Memory});
    assert Update(Update(s, a), b) == Span(0, 0xfff, {Memory});
    assert [a, b][1..] == [b] && [b, a][1..] == [a] && [a][1..] == [] && [b][1..] == [];
    assert Fold(s, [a, b]) == Fold(Update(s, a), [b]) == Fold(Update(Update(s, a), b), []);
    assert Fold(s, [b, a]) == Fold(Update(s, b), [a]) == Fold(Update(Update(s, b), a), []);
    assert FlagsAt([a, b], 0xfff) == {Memory} + FlagsAt([b], 0xfff);
    assert FlagsAt([b], 0xfff) == {Reserved} + FlagsAt([], 0xfff);
  }

  // The whole map, as for_each_memmap() walks it.

  /** The described regions from `min` to the end of the address space. */
  function Walk(ks: seq<Known>, min: nat): seq<Span>
    requires AllValid(ks) && min <= TOP
    decreases TOP - min
  {
    DescribeBasics(ks, min);
    var r := Describe(ks, min);
    [r] + if r.max == TOP then [] else Walk(ks, r.max + 1)
  }

  /** The walk cuts the address space into consecutive regions. */
  lemma {:induction false} WalkTiles(ks: seq<Known>, min: nat, i: nat)
    requires AllValid(ks) && min <= TOP && i < |Walk(ks, min)|
    ensures var w := Walk(ks, min);
            && w[0].min == min <= w[i].min <= w[i].max <= TOP && w[i] == Describe(ks, w[i].min)
            && (i == |w| - 1 <==> w[i].max == TOP) && (i + 1 < |w| ==> w[i + 1].min == w[i].max + 1)
    decreases TOP - min
  {
    DescribeBasics(ks, min);
    var r := Describe(ks, min);
    if r.max < TOP {
      WalkTiles(ks, r.max + 1, if i == 0 then 0 else i - 1);
    }
  }

  /** Every address lies in a region of the walk. */
  lemma {:induction false} WalkFinds(ks: seq<Known>, min: nat, a: nat) returns (i: nat)
    requires AllValid(ks) && min <= a <= TOP
    ensures i < |Walk(ks, min)| && Walk(ks, min)[i].min <= a <= Walk(ks, min)[i].max
    decreases TOP - min
  {
    DescribeBasics(ks, min);
    var r := Describe(ks, min);
    i := 0;
    if r.max < a {
      i := WalkFinds(ks, r.max + 1, a);
      i := i + 1;
    }
  }

  /** Every known region covers all or none of each region of the walk. */
  ghost predicate Intact(ks: seq<Known>)
    requires AllValid(ks)
  {
    forall s, k | s in Walk(ks, 0) && k in ks :: Uniform(s, k)
  }

  /** `j` ends where `k` starts, having started before, or starts just after. */
  predicate Meets(j: Known, k: Known) {
    j.size > 0 && (j.start < k.start == j.Last() || j.start == k.start + 1 < TOP)
  }

  /** Nothing ends just before `k`, and `k` starts at the end of the address space or where it meets another. */
  ghost predicate Clash(ks: seq<Known>, k: Known) {
    && k in ks && k.size > 0 && k.start > 0 && (forall r | r in ks && r.size > 0 :: r.Last() != k.start - 1)
    && (k.start == TOP || exists j :: j in ks && Meets(j, k))
  }

  ghost predicate Clashing(ks: seq<Known>) {
    exists k :: Clash(ks, k)
  }

  lemma ClashSpoils(ks: seq<Known>, k: Known)
    requires AllValid(ks) && Clash(ks, k)
    ensures Culprit(ks, k, k.start - 1)
  {
    if k.start != TOP {
      var j :| j in ks && Meets(j, k);
      assert EndsAt(j, k.start - 1, k.start);
    }
  }

  lemma CulpritClashes(ks: seq<Known>, k: Known, min: nat)
    requires AllValid(ks) && Culprit(ks, k, min)
    ensures Clash(ks, k)
  {
    if k.start != TOP {
      var j :| j in ks && EndsAt(j, min, k.start);
      assert Meets(j, k);
    }
  }

  /** What spoils the description of an address spoils that of the region of the walk in which it lies. */
  lemma CulpritBelow(ks: seq<Known>, k: Known, s: Span, min: nat)
    requires AllValid(ks) && Culprit(ks, k, min) && s.min <= min <= s.max && (forall r | r in ks :: Uniform(s, r))
    ensures Culprit(ks, k, s.min)
    ensures forall j | j in ks && EndsAt(j, min, k.start) :: EndsAt(j, s.min, k.start)
  {
    forall r | r in ks && r.size > 0
      ensures r.Has(s.min) <==> r.Has(min)
      ensures s.min < r.start ==> min < r.start
    {
      assert Uniform(s, r);
      if s.min < r.start <= min {
        assert r.Has(r.start);
      }
    }
    if k.start != TOP {
      var j :| j in ks && EndsAt(j, min, k.start);
      assert EndsAt(j, s.min, k.start);
    }
  }

  /** An order of clashing regions whose walk is wrong. */
  lemma ClashingOrder(ks: seq<Known>, k: Known) returns (js: seq<Known>)
    requires AllValid(ks) && Clash(ks, k)
    ensures SameRegions(ks, js) && AllValid(js) && !Intact(js)
  {
    var min := k.start - 1;
    ClashSpoils(ks, k);
    var i := CulpritIndex(ks, k, min);
    js := Promote(ks, i);
    SameMembers(ks, js);
    assert k.Valid();
    var n := WalkFinds(js, 0, min);
    WalkTiles(js, 0, n);
    var s := Walk(js, 0)[n];
    assert s in Walk(js, 0);
    UniformSpoils(ks, k, i, s, min);
    if s.max == k.start {
      assert k.Has(s.max) && !k.Has(s.min);
      assert !Uniform(s, k);
    }
  }

  lemma UniformSpoils(ks: seq<Known>, k: Known, i: nat, s: Span, min: nat)
    requires AllValid(ks) && Culprit(ks, k, min) && s.min <= min <= s.max && min <= TOP && i < |ks|
    requires k.start == TOP || EndsAt(ks[i], min, k.start)
    ensures (forall r | r in ks :: Uniform(s, r)) ==> Describe(Promote(ks, i), s.min).max == k.start
  {
    if forall r | r in ks :: Uniform(s, r) {
      CulpritBelow(ks, k, s, min);
      assert ks[i] in ks;
      PromoteSpoils(ks, k, i, s.min);
    }
  }

  lemma NoClashIntact(ks: seq<Known>)
    requires AllValid(ks) && !Clashing(ks)
    ensures Intact(ks)
  {
    forall s, k | s in Walk(ks, 0) && k in ks
      ensures Uniform(s, k)
    {
      var i :| 0 <= i < |Walk(ks, 0)| && Walk(ks, 0)[i] == s;
      WalkTiles(ks, 0, i);
      DescribeBasics(ks, s.min);
      if Spoilt(ks, s) {
        SpoiltIsSpoilable(ks, s.min);
        var c :| Culprit(ks, c, s.min);
        CulpritClashes(ks, c, s.min);
      }
    }
  }

  /** The walk is right in every order of the known regions if and only if none of them clashes. */
  lemma WalkExact(ks: seq<Known>)
    requires AllValid(ks)
    ensures (forall js | SameRegions(ks, js) :: AllValid(js) && Intact(js)) <==> !Clashing(ks)
  {
    if k :| Clash(ks, k) {
      var js := ClashingOrder(ks, k);
      assert SameRegions(ks, js);
    } else {
      forall js | SameRegions(ks, js)
        ensures AllValid(js) && Intact(js)
      {
        SameMembers(ks, js);
        if k :| Clash(js, k) {
          assert Clash(ks, k);
        }
        NoClashIntact(js);
      }
    }
  }

  /** Known regions with even starts and sizes do not clash. */
  predicate Even(ks: seq<Known>) {
    forall k | k in ks :: k.start % 2 == 0 && k.size % 2 == 0
  }

  lemma EvenNoClash(ks: seq<Known>)
    requires AllValid(ks) && Even(ks)
    ensures !Clashing(ks)
  {
    forall j, k | j in ks && k in ks
      ensures !Meets(j, k) && k.start != TOP
    {
      EvenApart(j, k);
    }
  }

  lemma EvenApart(j: Known, k: Known)
    requires j.start % 2 == 0 && j.size % 2 == 0 && k.start % 2 == 0
    ensures !Meets(j, k) && k.start != TOP
  {
  }

  /** The walk shows the map: each region has, at every address in it, exactly the flags of the known regions there. */
  lemma WalkIsMap(ks: seq<Known>, i: nat, a: nat)
    requires AllValid(ks) && !Clashing(ks) && i < |Walk(ks, 0)| && Walk(ks, 0)[i].min <= a <= Walk(ks, 0)[i].max
    ensures FlagsAt(ks, a) == Walk(ks, 0)[i].flags
  {
    WalkTiles(ks, 0, i);
    var s := Walk(ks, 0)[i];
    assert s in Walk(ks, 0);
    NoClashIntact(ks);
    DescribeBasics(ks, s.min);
    forall k | k in ks
      ensures k.Has(a) <==> k.Has(s.min)
    {
      assert Uniform(s, k);
    }
    SameFlags(ks, a, s.min);
  }

  // The code.

  const WORD64: nat := 0x1_0000_0000_0000_0000

  /** struct memmap_region, updated in place. */
  class Region {
    var min: nat
    var max: nat
    var flags: set<Flag>

    function State(): Span
      reads this
    {
      Span(min, max, flags)
    }

    /** memmap_init() */
    constructor (start: nat)
      ensures State() == Span(start, TOP, {})
    {
      min, max, flags := start, TOP, {};
    }

    /** memmap_update(), with its 64-bit arithmetic. */
    method UpdateWith(k: Known)
      requires k.Valid() && min <= max <= TOP
      modifies this
      ensures State() == Update(old(State()), k)
      ensures min <= max
    {
      if k.size == 0 {
        return;
      }
      var last := (k.start + k.size - 1) % WORD64;
      if last < k.start {
        last := TOP;
      }
      if last < min || k.start > max {
        return;
      }
      if k.start <= min {
        flags := flags + k.flags;
        if last < max {
          max := last;
        }
      } else if k.start < max {
        max := k.start - 1;
      }
    }

    /** Update with each known region in turn. */
    method UpdateAll(ks: seq<Known>)
      requires AllValid(ks) && min <= max <= TOP
      modifies this
      ensures State() == Fold(old(State()), ks) && min <= max
    {
      for i := 0 to |ks|
        invariant min <= max <= TOP
        invariant Fold(State(), ks[i..]) == Fold(old(State()), ks)
      {
        assert ks[i..][1..] == ks[i + 1..] && ks[i] in ks;
        UpdateWith(ks[i]);
      }
    }
  }

  /** memmap_describe() */
  method DescribeRegion(ks: seq<Known>, min: nat) returns (s: Span)
    requires AllValid(ks) && min <= TOP
    ensures s == Describe(ks, min)
  {
    var region := new Region(min);
    region.UpdateAll(ks);
    s := region.State();
  }

  predicate Usable(s: Span) {
    s.flags == {Memory}
  }

  /** memmap_size(): the size of the whole address space would wrap to zero. */
  function Size(s: Span): nat
    requires s.min <= s.max
  {
    (s.max - s.min + 1) % WORD64
  }

  /** The choice of memmap_largest() among regions: the first of the largest usable ones. */
  function Choose(w: seq<Span>, start: nat, largest: nat): (nat, nat) {
    if w == [] then (start, largest)
    else if Usable(w[0]) && w[0].min <= w[0].max && Size(w[0]) > largest then Choose(w[1..], w[0].min, Size(w[0]))
    else Choose(w[1..], start, largest)
  }

  predicate Proper(w: seq<Span>) {
    forall s | s in w :: s.min <= s.max
  }

  /** No usable region is larger than the one chosen, and no earlier one is as large. */
  lemma {:induction false} ChooseIsLargest(w: seq<Span>, start: nat, largest: nat)
    requires Proper(w)
    ensures var (a, n) := Choose(w, start, largest);
            && largest <= n && (forall s | s in w && Usable(s) :: Size(s) <= n)
            && (n == largest ==> a == start)
            && (n > largest ==> exists i ::
                  && 0 <= i < |w| && Usable(w[i]) && w[i].min == a && Size(w[i]) == n
                  && (forall j | 0 <= j < i && Usable(w[j]) :: Size(w[j]) < n))
    decreases |w|
  {
    if w != [] {
      var rest := w[1..];
      assert w[0] in w && forall j | 0 < j < |w| :: w[j] == rest[j - 1];
      var (b, m) := if Usable(w[0]) && Size(w[0]) > largest then (w[0].min, Size(w[0])) else (start, largest);
      ChooseIsLargest(rest, b, m);
      var (a, n) := Choose(rest, b, m);
      if n > m {
        var i :| 0 <= i < |rest| && Usable(rest[i]) && rest[i].min == a && Size(rest[i]) == n
                 && (forall j | 0 <= j < i && Usable(rest[j]) :: Size(rest[j]) < n);
        assert w[i + 1] == rest[i];
        forall j | 0 <= j < i + 1 && Usable(w[j])
          ensures Size(w[j]) < n
        {
          if j > 0 {
            assert Usable(rest[j - 1]);
          }
        }
      } else if n > largest {
        assert w[0].min == a;
      }
    }
  }

  /** A region of a list: described from its start, and followed by another unless it ends at the top. */
  ghost predicate Tile(ks: seq<Known>, w: seq<Span>, i: nat)
    requires AllValid(ks) && i < |w|
  {
    && w[i].min <= w[i].max <= TOP && w[i] == Describe(ks, w[i].min)
    && if w[i].max == TOP then i + 1 == |w| else i + 1 < |w| && w[i + 1].min == w[i].max + 1
  }

  /** The regions follow each other from the bottom to the top of the address space. */
  ghost predicate Tiling(ks: seq<Known>, w: seq<Span>)
    requires AllValid(ks)
  {
    |w| > 0 && w[0].min == 0 && forall i | 0 <= i < |w| :: Tile(ks, w, i)
  }

  lemma WalkTiling(ks: seq<Known>)
    requires AllValid(ks)
    ensures Tiling(ks, Walk(ks, 0))
  {
    var w := Walk(ks, 0);
    WalkTiles(ks, 0, 0);
    forall i | 0 <= i < |w|
      ensures Tile(ks, w, i)
    {
      WalkTiles(ks, 0, i);
    }
  }

  /** memmap_largest() */
  method Largest(ks: seq<Known>) returns (start: nat, largest: nat)
    requires AllValid(ks)
    ensures (start, largest) == Choose(Walk(ks, 0), 0, 0)
  {
    WalkTiling(ks);
    start, largest := LargestOf(ks, Walk(ks, 0));
  }

  /** The loop of memmap_largest(). */
  method LargestOf(ks: seq<Known>, ghost w: seq<Span>) returns (start: nat, largest: nat)
    requires AllValid(ks) && Tiling(ks, w)
    ensures (start, largest) == Choose(w, 0, 0)
  {
    start, largest := 0, 0;
    var min, more := 0, true;
    ghost var n := 0;
    assert w[0..] == w;
    while more
      invariant n <= |w| && (if more then n < |w| && min == w[n].min else n == |w|)
      invariant Choose(w[n..], start, largest) == Choose(w, 0, 0)
      decreases |w| - n
    {
      assert Tile(ks, w, n);
      var s := DescribeRegion(ks, min);
      assert w[n..][1..] == w[n + 1..];
      if Usable(s) && Size(s) > largest {
        largest, start := Size(s), s.min;
      }
      min := (s.max + 1) % WORD64;
      more := min != 0;
      n := n + 1;
    }
  }
}
