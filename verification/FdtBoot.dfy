/** fdt_bootargs(): what a kernel then reads from the device tree. */
module FdtBoot {
  import opened Basics
  import opened FdtFormat
  import opened FdtWalk
  import opened FdtSpec
  import opened FdtRead
  import opened FdtReadLaws
  import opened FdtSplice
  import opened FdtBlob
  import opened FdtEdit
  import opened FdtUpdate
  import opened FdtSet
  import opened FdtProps

  /** "chosen", "bootargs", "linux,initrd-start" and "linux,initrd-end" */
  const CHOSEN: seq<byte> := [99, 104, 111, 115, 101, 110]
  const BOOTARGS: seq<byte> := [98, 111, 111, 116, 97, 114, 103, 115]
  const INITRD_START: seq<byte> := [108, 105, 110, 117, 120, 44, 105, 110, 105, 116, 114, 100, 45, 115, 116, 97, 114, 116]
  const INITRD_END: seq<byte> := [108, 105, 110, 117, 120, 44, 105, 110, 105, 116, 114, 100, 45, 101, 110, 100]

  predicate AllPermitted(name: seq<byte>) {
    forall i | 0 <= i < |name| :: Permitted(name[i])
  }

  /** A name of permitted characters matches only itself. */
  lemma MatchesItself(n: seq<byte>, name: seq<byte>)
    requires AllPermitted(name) && Match(n, name)
    ensures n == name
  {
  }

  /** No property matches both of two names of permitted characters. */
  lemma OnlyOne(props: seq<Entry>, name: seq<byte>, other: seq<byte>)
    requires AllPermitted(name) && AllPermitted(other) && name != other
    ensures forall p | p in props && Match(p.name, name) :: !Match(p.name, other)
  {
    forall p | p in props && Match(p.name, name)
      ensures !Match(p.name, other)
    {
      MatchesItself(p.name, name);
      if Match(p.name, other) {
        MatchesItself(p.name, other);
      }
    }
  }

  /** Setting a property leaves what another name finds, if both names are of permitted characters. */
  lemma SetOther(t: Tree, name: seq<byte>, data: Option<seq<byte>>, other: seq<byte>)
    requires AllPermitted(name) && AllPermitted(other) && name != other
    ensures FindEntry(SetProp(t, name, data).props, other) == FindEntry(t.props, other)
  {
    OnlyOne(t.props, name, other);
    if Match(name, other) {
      MatchesItself(name, other);
    }
    SetThenFindOther(t, name, data, other);
  }

  /** `after` is `before` but for the child `k`, the one that a lookup of "chosen" finds. */
  ghost predicate OnlyChosen(before: Tree, after: Tree, k: nat) {
    && after.name == before.name && after.props == before.props
    && FirstKid(after.kids, CHOSEN) == Some(k) && |before.kids| <= |after.kids| && k < |after.kids|
    && |after.kids| <= |before.kids| + 1 && (|after.kids| > |before.kids| ==> k == |before.kids|)
    && (forall j | 0 <= j < |before.kids| && j != k :: after.kids[j] == before.kids[j])
  }

  /** The first match does not depend on more than the names. */
  lemma {:induction false} FirstKidNames(kids: seq<Tree>, others: seq<Tree>, name: seq<byte>)
    requires |kids| == |others| && forall i | 0 <= i < |kids| :: kids[i].name == others[i].name
    ensures FirstKid(kids, name) == FirstKid(others, name)
  {
    if kids != [] {
      FirstKidNames(kids[1..], others[1..], name);
    }
  }

  lemma {:induction false} FirstKidLast(kids: seq<Tree>, t: Tree, name: seq<byte>)
    requires FirstKid(kids, name).None? && t.name == name
    ensures FirstKid(kids + [t], name) == Some(|kids|)
  {
    if kids == [] {
      assert (kids + [t])[0] == t;
    } else {
      FirstKidLast(kids[1..], t, name);
      assert (kids + [t])[1..] == kids[1..] + [t];
    }
  }

  lemma ChosenAdded(root: Tree, after: seq<Tree>)
    requires FirstKid(root.kids, CHOSEN).None? && after == AddChild([root], [0], CHOSEN)
    ensures |after| == 1 && OnlyChosen(root, after[0], |root.kids|)
  {
    FirstKidLast(root.kids, Tree(CHOSEN, [], []), CHOSEN);
  }

  /** Setting a property of the chosen node. */
  lemma ChosenSet(root: Tree, before: Tree, k: nat, name: seq<byte>, data: Option<seq<byte>>, after: seq<Tree>)
    requires OnlyChosen(root, before, k) && IsTreePath([before], [0, k])
    requires after == PutAt([before], [0, k], SetProp(TreeAt([before], [0, k]), name, data))
    ensures |after| == 1 && OnlyChosen(root, after[0], k)
    ensures after[0].kids[k] == SetProp(before.kids[k], name, data)
  {
    assert [0, k][1..] == [k];
    FirstKidNames(before.kids, after[0].kids, CHOSEN);
  }

  /** The number of properties that a name matches. */
  function Matches(props: seq<Entry>, name: seq<byte>): nat {
    if props == [] then 0 else One(Match(props[0].name, name)) + Matches(props[1..], name)
  }

  lemma {:induction false} FoundIfMatched(props: seq<Entry>, name: seq<byte>)
    ensures FindEntry(props, name).None? <==> Matches(props, name) == 0
  {
    if props != [] {
      FoundIfMatched(props[1..], name);
    }
  }

  /** Deleting a property takes one match away, if there is one. */
  lemma {:induction false} DeleteCounts(props: seq<Entry>, name: seq<byte>)
    ensures var n := Matches(props, name); Matches(ReplaceEntry(props, name, []), name) == if n == 0 then 0 else n - 1
  {
    if props != [] {
      if Match(props[0].name, name) {
        assert ReplaceEntry(props, name, []) == props[1..];
      } else {
        DeleteCounts(props[1..], name);
        assert ReplaceEntry(props, name, [])[1..] == ReplaceEntry(props[1..], name, []);
      }
    }
  }

  lemma {:induction false} OtherCounts(props: seq<Entry>, name: seq<byte>, xs: seq<Entry>, other: seq<byte>)
    requires |xs| <= 1 && (|xs| == 1 ==> !Match(xs[0].name, other))
    requires forall p | p in props && Match(p.name, name) :: !Match(p.name, other)
    ensures Matches(ReplaceEntry(props, name, xs), other) == Matches(props, other)
  {
    if props != [] {
      var rest, after := props[1..], ReplaceEntry(props, name, xs);
      assert props[0] in props;
      if Match(props[0].name, name) {
        assert after[|xs|..] == rest;
      } else {
        OtherCounts(rest, name, xs, other);
        assert after[1..] == ReplaceEntry(rest, name, xs);
      }
    }
  }

  /** Setting a property leaves the number of matches of another name. */
  lemma SetOtherCounts(t: Tree, name: seq<byte>, data: Option<seq<byte>>, other: seq<byte>)
    requires AllPermitted(name) && AllPermitted(other) && name != other
    ensures Matches(SetProp(t, name, data).props, other) == Matches(t.props, other)
  {
    OnlyOne(t.props, name, other);
    match data
    case None => OtherCounts(t.props, name, [], other);
    case Some(d) =>
      match FirstEntry(t.props, name) {
        case None =>
          var after := [Entry(name, d)] + t.props;
          assert after[1..] == t.props;
          if Match(name, other) {
            MatchesItself(name, other);
          }
        case Some(i) =>
          assert t.props[i] in t.props;
          OtherCounts(t.props, name, [Entry(t.props[i].name, d)], other);
      }
  }

  /** What a kernel finds: the data given, or else nothing, unless `before` had the property more than once. */
  ghost predicate ReadsBack(before: Tree, chosen: Tree, name: seq<byte>, data: Option<seq<byte>>) {
    var found := FindEntry(chosen.props, name);
    match data
    case Some(d) => found.Some? && found.value.data == d
    case None => found.None? <==> Matches(before.props, name) <= 1
  }

  lemma ReadsAfterSet(t: Tree, name: seq<byte>, data: Option<seq<byte>>)
    ensures ReadsBack(t, SetProp(t, name, data), name, data)
  {
    if data.Some? {
      SetThenFind(t, name, data.value);
    } else {
      DeleteCounts(t.props, name);
      FoundIfMatched(SetProp(t, name, data).props, name);
    }
  }

  /** Three names that do not match each other. */
  lemma BootNames()
    ensures AllPermitted(BOOTARGS) && AllPermitted(INITRD_START) && AllPermitted(INITRD_END)
    ensures BOOTARGS != INITRD_START && BOOTARGS != INITRD_END && INITRD_START != INITRD_END
    ensures 0 !in CHOSEN && 0 !in BOOTARGS && 0 !in INITRD_START && 0 !in INITRD_END
  {
    assert |INITRD_START| != |INITRD_END|;
    assert |BOOTARGS| != |INITRD_END|;
    assert |BOOTARGS| != |INITRD_START|;
  }

  /** A property of the chosen node is set if its turn comes. */
  function Turn(reached: bool, t: Tree, name: seq<byte>, data: Option<seq<byte>>): Tree {
    if reached then SetProp(t, name, data) else t
  }

  /** What the property with turn `i` is set to, if the run stops at step `stop`: the one that fails is deleted. */
  function Given(i: nat, stop: nat, data: Option<seq<byte>>): Option<seq<byte>> {
    if i < stop then data else None
  }

  /** The chosen node as fdt_bootargs() leaves it, having stopped at property 1, 2 or 3, or with 4 at the end. */
  function BootNode(t: Tree, a: Option<seq<byte>>, b: Option<seq<byte>>, c: Option<seq<byte>>, stop: nat): Tree {
    var t1 := Turn(1 <= stop, t, BOOTARGS, Given(1, stop, a));
    var t2 := Turn(2 <= stop, t1, INITRD_START, Given(2, stop, b));
    Turn(3 <= stop, t2, INITRD_END, Given(3, stop, c))
  }

  /** What a kernel finds of the property with turn `i`. */
  ghost predicate Booted(before: Tree, chosen: Tree, name: seq<byte>, data: Option<seq<byte>>, i: nat, stop: nat) {
    if i <= stop then ReadsBack(before, chosen, name, Given(i, stop, data))
    else FindEntry(chosen.props, name) == FindEntry(before.props, name)
  }

  lemma TurnOther(reached: bool, t: Tree, name: seq<byte>, data: Option<seq<byte>>, other: seq<byte>)
    requires AllPermitted(name) && AllPermitted(other) && name != other
    ensures FindEntry(Turn(reached, t, name, data).props, other) == FindEntry(t.props, other)
    ensures Matches(Turn(reached, t, name, data).props, other) == Matches(t.props, other)
  {
    if reached {
      SetOther(t, name, data, other);
      SetOtherCounts(t, name, data, other);
    }
  }

  lemma TurnReads(t: Tree, name: seq<byte>, data: Option<seq<byte>>, i: nat, stop: nat)
    ensures Booted(t, Turn(i <= stop, t, name, Given(i, stop, data)), name, data, i, stop)
  {
    ReadsAfterSet(t, name, Given(i, stop, data));
  }

  lemma BootReads(t: Tree, a: Option<seq<byte>>, b: Option<seq<byte>>, c: Option<seq<byte>>, stop: nat)
    ensures var r := BootNode(t, a, b, c, stop);
            Booted(t, r, BOOTARGS, a, 1, stop) && Booted(t, r, INITRD_START, b, 2, stop) && Booted(t, r, INITRD_END, c, 3, stop)
  {
    BootNames();
    var x, y, z := Given(1, stop, a), Given(2, stop, b), Given(3, stop, c);
    var t1 := Turn(1 <= stop, t, BOOTARGS, x);
    var t2 := Turn(2 <= stop, t1, INITRD_START, y);
    TurnReads(t, BOOTARGS, a, 1, stop);
    TurnReads(t1, INITRD_START, b, 2, stop);
    TurnReads(t2, INITRD_END, c, 3, stop);
    TurnOther(2 <= stop, t1, INITRD_START, y, BOOTARGS);
    TurnOther(3 <= stop, t2, INITRD_END, z, BOOTARGS);
    TurnOther(3 <= stop, t2, INITRD_END, z, INITRD_START);
    TurnOther(1 <= stop, t, BOOTARGS, x, INITRD_START);
    TurnOther(1 <= stop, t, BOOTARGS, x, INITRD_END);
    TurnOther(2 <= stop, t1, INITRD_START, y, INITRD_END);
  }

  /** A lookup of any other name of permitted characters finds what it found before. */
  lemma BootKeeps(t: Tree, a: Option<seq<byte>>, b: Option<seq<byte>>, c: Option<seq<byte>>, stop: nat, other: seq<byte>)
    requires AllPermitted(other) && other != BOOTARGS && other != INITRD_START && other != INITRD_END
    ensures FindEntry(BootNode(t, a, b, c, stop).props, other) == FindEntry(t.props, other)
  {
    BootNames();
    var t1 := Turn(1 <= stop, t, BOOTARGS, Given(1, stop, a));
    var t2 := Turn(2 <= stop, t1, INITRD_START, Given(2, stop, b));
    TurnOther(1 <= stop, t, BOOTARGS, Given(1, stop, a), other);
    TurnOther(2 <= stop, t1, INITRD_START, Given(2, stop, b), other);
    TurnOther(3 <= stop, t2, INITRD_END, Given(3, stop, c), other);
  }

  /** The number of physical addresses: these have 64 or 32 bits. */
  function Space(wide: bool): nat {
    if wide then WORD_SPACE * WORD_SPACE else WORD_SPACE
  }

  /** A physical address in big-endian order. */
  function Address(n: nat, wide: bool): seq<byte>
    requires n < Space(wide)
  {
    if wide then BE32(n / WORD_SPACE) + BE32(n % WORD_SPACE) else BE32(n)
  }

  /** The words of an address make up the address. */
  lemma AddressReads(n: nat, wide: bool)
    requires n < Space(wide)
    ensures var a := Address(n, wide);
            if wide then |a| == 8 && Word(a, 0) * WORD_SPACE + Word(a, 4) == n else |a| == 4 && Word(a, 0) == n
  {
    var a := Address(n, wide);
    if wide {
      WordOfBE32(a, 0, n / WORD_SPACE);
      WordOfBE32(a, 4, n % WORD_SPACE);
    } else {
      WordOfBE32(a, 0, n);
    }
  }

  /** Property data: a terminated command line, and the bounds of a ramdisk that has a length. */
  function ArgsData(cmdline: Option<seq<byte>>): Option<seq<byte>> {
    if cmdline.Some? then Some(cmdline.value + [0]) else None
  }

  function StartData(initrd: nat, len: nat, wide: bool): Option<seq<byte>>
    requires initrd < Space(wide)
  {
    if len != 0 then Some(Address(initrd, wide)) else None
  }

  function EndData(initrd: nat, len: nat, wide: bool): Option<seq<byte>> {
    if len != 0 then Some(Address((initrd + len) % Space(wide), wide)) else None
  }

  /** The chosen node before: the one found in the tree, or else an empty one. */
  function Before(root: Tree, k: nat): Tree {
    if k < |root.kids| then root.kids[k] else Tree(CHOSEN, [], [])
  }

  /** The chosen node is at `offset`, and everything but that node is as in `root`. */
  ghost predicate Found(b: Blob, e: Elems, root: Tree, offset: nat, k: nat, chosen: Tree, rsv: nat) {
    && Encodes(b, e, rsv) && IsPath(e, [0, k]) && PathOff(e, 0, [0, k]) == offset
    && var kids := KidsOf(StringBytes(b), e); |kids| == 1 && OnlyChosen(root, kids[0], k) && kids[0].kids[k] == chosen
  }

  /** fdt_ensure_child() for "chosen". */
  method EnsureChosen(ed: Editor, ghost e: Elems, ghost root: Tree, ghost rsv: nat)
    returns (r: Result<nat>, ghost u: Elems, ghost k: nat)
    requires Encodes(ed.State(), e, rsv) && KidsOf(StringBytes(ed.State()), e) == [root]
    modifies ed
    ensures r.Ok? ==> Found(ed.State(), u, root, r.value, k, Before(root, k), rsv) && ed.stringsLen == old(ed.stringsLen)
    ensures r.Err? ==> ed.State() == old(ed.State())
  {
    BootNames();
    PathTree(StringBytes(ed.State()), e, [0]);
    r, u := EnsureChild(ed, 0, CHOSEN, e, [0], rsv);
    k := 0;
    if r.Ok? {
      match FirstKid(root.kids, CHOSEN) {
        case Some(i) =>
          k := i;
        case None =>
          k := |root.kids|;
          ChosenAdded(root, KidsOf(StringBytes(ed.State()), u));
      }
      assert [0] + [k] == [0, k];
      assert |StringBytes(ed.State())| == |old(StringBytes(ed.State()))|;
    }
  }

  /** fdt_set() on the chosen node. */
  method SetChosen(ed: Editor, offset: nat, name: seq<byte>, data: Option<seq<byte>>,
                   ghost e: Elems, ghost root: Tree, ghost k: nat, ghost chosen: Tree, ghost rsv: nat)
    returns (r: Result<()>, ghost u: Elems)
    requires Found(ed.State(), e, root, offset, k, chosen, rsv) && 0 !in name && 0 < ed.stringsLen
    modifies ed
    ensures Found(ed.State(), u, root, offset, k, SetProp(chosen, name, if r.Ok? then data else None), rsv)
    ensures r.Ok? ==> 0 < ed.stringsLen
  {
    ghost var kids := KidsOf(StringBytes(ed.State()), e);
    r, u := Set(ed, offset, name, data, e, [0, k], rsv);
    assert r.Ok? ==> |StringBytes(ed.State())| >= |old(StringBytes(ed.State()))|;
    assert kids == [kids[0]];
    assert TreeAt(kids, [0, k]) == chosen by {
      assert [0, k][1..] == [k];
    }
    ChosenSet(root, kids[0], k, name, if r.Ok? then data else None, KidsOf(StringBytes(ed.State()), u));
  }

  /** The tree after fdt_bootargs() got as far as step `stop`. */
  ghost predicate BootState(b: Blob, u: Elems, root: Tree, k: nat, rsv: nat, stop: nat,
                            args: Option<seq<byte>>, start: Option<seq<byte>>, end: Option<seq<byte>>)
  {
    && Encodes(b, u, rsv)
    && var kids := KidsOf(StringBytes(b), u);
    && |kids| == 1 && OnlyChosen(root, kids[0], k)
    && var before, chosen := Before(root, k), kids[0].kids[k];
    && chosen.name == before.name && chosen.kids == before.kids
    && Booted(before, chosen, BOOTARGS, args, 1, stop)
    && Booted(before, chosen, INITRD_START, start, 2, stop)
    && Booted(before, chosen, INITRD_END, end, 3, stop)
    && (forall other | AllPermitted(other) && other != BOOTARGS && other != INITRD_START && other != INITRD_END ::
          FindEntry(chosen.props, other) == FindEntry(before.props, other))
  }

  lemma BootDone(b: Blob, u: Elems, root: Tree, offset: nat, k: nat, rsv: nat, stop: nat,
                 args: Option<seq<byte>>, start: Option<seq<byte>>, end: Option<seq<byte>>)
    requires Found(b, u, root, offset, k, BootNode(Before(root, k), args, start, end, stop), rsv)
    ensures BootState(b, u, root, k, rsv, stop, args, start, end)
  {
    var before := Before(root, k);
    BootReads(before, args, start, end, stop);
    forall other | AllPermitted(other) && other != BOOTARGS && other != INITRD_START && other != INITRD_END
      ensures FindEntry(BootNode(before, args, start, end, stop).props, other) == FindEntry(before.props, other)
    {
      BootKeeps(before, args, start, end, stop, other);
    }
  }

  /** The chosen node after the two properties for a ramdisk. */
  function RamdiskNode(t: Tree, b: Option<seq<byte>>, c: Option<seq<byte>>, stop: nat): Tree {
    Turn(3 <= stop, Turn(2 <= stop, t, INITRD_START, Given(2, stop, b)), INITRD_END, Given(3, stop, c))
  }

  method SetRamdisk(ed: Editor, offset: nat, start: Option<seq<byte>>, end: Option<seq<byte>>,
                    ghost e: Elems, ghost root: Tree, ghost k: nat, ghost before: Tree, ghost rsv: nat)
    returns (r: Result<()>, ghost u: Elems, ghost stop: nat)
    requires Found(ed.State(), e, root, offset, k, before, rsv) && 0 < ed.stringsLen
    modifies ed
    ensures Found(ed.State(), u, root, offset, k, RamdiskNode(before, start, end, stop), rsv)
    ensures 2 <= stop <= 4 && (r.Ok? <==> stop == 4)
  {
    BootNames();
    stop := 2;
    r, u := SetChosen(ed, offset, INITRD_START, start, e, root, k, before, rsv);
    if r.Err? {
      return;
    }
    stop := 3;
    r, u := SetChosen(ed, offset, INITRD_END, end, u, root, k, SetProp(before, INITRD_START, start), rsv);
    if r.Ok? {
      stop := 4;
    }
  }

  /** The three properties of the chosen node, one after the other. */
  method SetBoot(ed: Editor, offset: nat, args: Option<seq<byte>>, start: Option<seq<byte>>, end: Option<seq<byte>>,
                 ghost e: Elems, ghost root: Tree, ghost k: nat, ghost before: Tree, ghost rsv: nat)
    returns (r: Result<()>, ghost u: Elems, ghost stop: nat)
    requires Found(ed.State(), e, root, offset, k, before, rsv) && 0 < ed.stringsLen
    modifies ed
    ensures Found(ed.State(), u, root, offset, k, BootNode(before, args, start, end, stop), rsv)
    ensures 1 <= stop <= 4 && (r.Ok? <==> stop == 4)
  {
    BootNames();
    stop := 1;
    r, u := SetChosen(ed, offset, BOOTARGS, args, e, root, k, before, rsv);
    if r.Ok? {
      r, u, stop := SetRamdisk(ed, offset, start, end, u, root, k, SetProp(before, BOOTARGS, args), rsv);
    }
  }

  /**
    fdt_bootargs(): on success a lookup of "chosen" finds a node whose properties read
    back as given, those not given are deleted, and the rest of the tree is unchanged.
    A failure leaves the tree as it was (`stop` is 0), or the properties before the one
    numbered `stop` as given, that one deleted and those after it as they were.
   */
  method BootArgs(ed: Editor, cmdline: Option<seq<byte>>, initrd: nat, len: nat, wide: bool,
                  ghost e: Elems, ghost root: Tree, ghost rsv: nat)
    returns (r: Result<()>, ghost u: Elems, ghost k: nat, ghost stop: nat)
    requires Encodes(ed.State(), e, rsv) && KidsOf(StringBytes(ed.State()), e) == [root] && 0 < ed.stringsLen
    requires initrd < Space(wide)
    modifies ed
    ensures stop <= 4 && (r.Ok? <==> stop == 4)
    ensures stop == 0 ==> ed.State() == old(ed.State())
    ensures stop > 0 ==>
      BootState(ed.State(), u, root, k, rsv, stop, ArgsData(cmdline), StartData(initrd, len, wide), EndData(initrd, len, wide))
  {
    stop := 0;
    var offset;
    offset, u, k := EnsureChosen(ed, e, root, rsv);
    if offset.Err? {
      r := Err(offset.error);
      return;
    }
    var args, start, end := ArgsData(cmdline), StartData(initrd, len, wide), EndData(initrd, len, wide);
    r, u, stop := SetBoot(ed, offset.value, args, start, end, u, root, k, Before(root, k), rsv);
    BootDone(ed.State(), u, root, offset.value, k, rsv, stop, args, start, end);
  }
}
