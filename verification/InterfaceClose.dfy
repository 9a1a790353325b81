/** Plugging, inserting and shutting down interfaces: what each operation leaves, and that closing ends. */
module InterfaceClose {
  import opened Basics
  import opened InterfaceNet

  predicate IsIntf(w: Wiring, i: nat) {
    i < |w.owner|
  }

  /** intf_plug() */
  function Plug(n: Net, w: Wiring, i: nat, d: nat): (r: Net)
    requires Inv(n, w) && IsIntf(w, i) && IsIntf(w, d) && Alive(n, w, d)
    ensures Inv(r, w) && r.holds == n.holds && r.dest == (if i == NULL then n.dest else n.dest[i := d])
    ensures r.nulled == n.nulled
  {
    if i == NULL then n
    else
      GetKeeps(n, w, d);
      var g := Get(n, w, d);
      RepointKeeps(g, w, i, d);
      PutKeeps(Repoint(g, w, i, d), w, n.dest[i]);
      Put(Repoint(g, w, i, d), w, n.dest[i])
  }

  /** intf_plug_plug(), by a caller that holds both objects. */
  function PlugPlug(n: Net, w: Wiring, a: nat, b: nat): (r: Net)
    requires Inv(n, w) && Held(n, w, a) && Held(n, w, b)
    ensures Inv(r, w) && r.holds == n.holds && r.nulled == n.nulled
    ensures r.dest == (var d := if a == NULL then n.dest else n.dest[a := b]; if b == NULL then d else d[b := a])
  {
    HeldAlive(n, w, b);
    var p := Plug(n, w, a, b);
    HeldAlive(p, w, a);
    Plug(p, w, b, a)
  }

  /** intf_unplug() */
  function Unplug(n: Net, w: Wiring, i: nat): (r: Net)
    requires Inv(n, w) && IsIntf(w, i)
    ensures Inv(r, w) && r.holds == n.holds && r.dest == n.dest[i := NULL] && r.nulled == n.nulled
  {
    Plug(n, w, i, NULL)
  }

  // The order in which intf_plug() releases and stores.

  /** What intf_plug() has done before it stores: the new destination is referenced and the old one released. */
  function Released(n: Net, w: Wiring, i: nat, d: nat): Net
    requires Inv(n, w) && IsIntf(w, i) && IsIntf(w, d)
  {
    Decrement(Get(n, w, d), w, n.dest[i])
  }

  /** The plug of `i` is the only reference to the object of `i` itself, and `d` belongs to another. */
  predicate OwnLastPlug(n: Net, w: Wiring, i: nat, d: nat)
    requires Inv(n, w) && IsIntf(w, i) && IsIntf(w, d)
  {
    && w.owner[i].Some? && w.owner[n.dest[i]] == w.owner[i] != w.owner[d]
    && n.count[w.owner[i].value] == 0
  }

  /** The store of intf_plug() is to memory still there if and only if the plug released was not the last reference to its own object. */
  lemma PlugStoreExact(n: Net, w: Wiring, i: nat, d: nat)
    requires Inv(n, w) && IsIntf(w, i) && IsIntf(w, d) && i != NULL && Alive(n, w, i) && Alive(n, w, d)
    ensures Alive(Released(n, w, i, d), w, i) <==> !OwnLastPlug(n, w, i, d)
    ensures Plug(n, w, i, d) == Released(n, w, i, d).(dest := n.dest[i := d], holds := n.holds)
  {
    GetKeeps(n, w, d);
    var g := Get(n, w, d);
    RepointKeeps(g, w, i, d);
    assert Add(Drop(g.holds, w, d), w, n.dest[i]) == Add(n.holds, w, n.dest[i]);
    if w.owner[i].Some? {
      assert CountOk(n, w, w.owner[i].value);
    }
  }

  /** A caller that holds the object of `i` is safe. */
  lemma HeldPlugSafe(n: Net, w: Wiring, i: nat, d: nat)
    requires Inv(n, w) && IsIntf(w, i) && IsIntf(w, d) && Held(n, w, i)
    ensures !OwnLastPlug(n, w, i, d)
  {
    if w.owner[i].Some? {
      var o := w.owner[i].value;
      assert CountOk(n, w, o);
      if Owns(w, n.dest[i], o) {
        InboundSome(n.dest, w, o, i);
      }
    }
  }

  /**
    An object plugged into itself and then released by its creator: replugging and
    unplugging its interface both store into memory that the release has freed.
   */
  lemma SelfPlugLost()
    ensures var w := Wiring([None, Some(0), Some(0), Some(1)], [Default, Default, Default, Default], 2);
            && WellWired(w) && Inv(Fresh(w), w)
            && var n := Put(Plug(Fresh(w), w, 1, 2), w, 1);
            && Inv(n, w) && Alive(n, w, 1) && Alive(n, w, 3)
            && !Alive(Released(n, w, 1, 3), w, 1) && !Alive(Released(n, w, 1, NULL), w, 1)
            && 0 in Plug(n, w, 1, 3).freed && 0 in Unplug(n, w, 1).freed
  {
    var w := Wiring([None, Some(0), Some(0), Some(1)], [Default, Default, Default, Default], 2);
    FreshInv(w);
    var f := Fresh(w);
    var p := Plug(f, w, 1, 2);
    assert CountOk(f, w, 0) && CountOk(p, w, 0);
    InboundUpdate(f.dest, w, 0, 1, 2);
    PutKeeps(p, w, 1);
    var n := Put(p, w, 1);
    PlugStoreExact(n, w, 1, 3);
    PlugStoreExact(n, w, 1, NULL);
  }

  /** Counting has nothing to do with descriptors. */
  lemma NulledKeeps(n: Net, w: Wiring, nulled: set<nat>)
    requires Inv(n, w) && NULL in nulled
    ensures Inv(n.(nulled := nulled), w)
  {
    var r := n.(nulled := nulled);
    forall o | 0 <= o < |r.count|
      ensures CountOk(r, w, o)
    {
      assert CountOk(n, w, o);
    }
  }

  /** The start of intf_shutdown(): the interface is nullified, and its plug passes to the temporary interface. */
  function Detach(n: Net, w: Wiring, i: nat): (r: Net)
    requires Inv(n, w) && IsIntf(w, i) && i != NULL
    ensures Inv(r, w) && Held(r, w, n.dest[i]) && r.holds == Add(n.holds, w, n.dest[i])
    ensures r.dest == n.dest[i := NULL] && r.nulled == n.nulled + {i} && r.freed == n.freed
    ensures Plugged(r.dest) + One(n.dest[i] != NULL) == Plugged(n.dest)
  {
    RepointKeeps(n, w, i, NULL);
    PluggedUpdate(n.dest, i, NULL);
    var r := Repoint(n, w, i, NULL);
    NulledKeeps(r, w, r.nulled + {i});
    r.(nulled := r.nulled + {i})
  }

  function Nullify(n: Net, w: Wiring, list: seq<nat>): (r: Net)
    requires Inv(n, w)
    ensures Inv(r, w) && r.dest == n.dest && r.holds == n.holds && r.freed == n.freed
    ensures r.nulled == n.nulled + set i | i in list
  {
    NulledKeeps(n, w, n.nulled + set i | i in list);
    n.(nulled := n.nulled + set i | i in list)
  }

  /** What closing keeps: the held references; plugs are only ever removed, and objects only ever freed. */
  predicate Wound(n: Net, r: Net) {
    && r.holds == n.holds && n.freed <= r.freed && |r.dest| == |n.dest| && Plugged(r.dest) <= Plugged(n.dest)
    && (forall i | 0 <= i < |n.dest| :: r.dest[i] == n.dest[i] || r.dest[i] == NULL)
  }

  /** intf_shutdown() */
  ghost function Shutdown(n: Net, w: Wiring, i: nat): (r: Net)
    requires Inv(n, w) && IsIntf(w, i) && i != NULL
    ensures Inv(r, w) && Wound(n, r) && r.dest[i] == NULL
    decreases Plugged(n.dest), 1
  {
    var d := n.dest[i];
    var t := Detach(n, w, i);
    var c := Close(t, w, d);
    PutKeeps(c, w, d);
    Put(c, w, d)
  }

  /** intf_close(), given the destination. */
  ghost function Close(n: Net, w: Wiring, d: nat): (r: Net)
    requires Inv(n, w) && IsIntf(w, d) && Held(n, w, d)
    ensures Inv(r, w) && Wound(n, r)
    decreases Plugged(n.dest), if d == NULL then 0 else 5
  {
    HeldAlive(n, w, d);
    GetKeeps(n, w, d);
    var g := Get(n, w, d);
    var h := if d in g.nulled then g else Handle(g, w, d);
    PutKeeps(h, w, d);
    Put(h, w, d)
  }

  /** The close operation of an interface that is not nullified. */
  ghost function Handle(n: Net, w: Wiring, d: nat): (r: Net)
    requires Inv(n, w) && IsIntf(w, d) && d != NULL
    ensures Inv(r, w) && Wound(n, r)
    decreases Plugged(n.dest), 4
  {
    match w.handler[d]
    case Default => Restart(n, w, d)
    case Custom(list) => ShutdownAll(Nullify(n, w, list), w, list)
  }

  /** intf_restart() */
  ghost function Restart(n: Net, w: Wiring, i: nat): (r: Net)
    requires Inv(n, w) && IsIntf(w, i) && i != NULL
    ensures Inv(r, w) && Wound(n, r) && r.dest[i] == NULL
    decreases Plugged(n.dest), 2
  {
    var s := Shutdown(n, w, i);
    NulledKeeps(s, w, s.nulled - {i});
    s.(nulled := s.nulled - {i})
  }

  /** The second loop of intfs_shutdown(). */
  ghost function ShutdownAll(n: Net, w: Wiring, list: seq<nat>): (r: Net)
    requires Inv(n, w) && (forall j | 0 <= j < |list| :: IsIntf(w, list[j]) && list[j] != NULL)
    ensures Inv(r, w) && Wound(n, r)
    decreases Plugged(n.dest), 3, |list|
  {
    if list == [] then n else ShutdownAll(Shutdown(n, w, list[0]), w, list[1..])
  }

  // What shutting down does to a network of default handlers.

  /** The interfaces that shutting down `i` reaches: from each to its destination, until one that is nullified. */
  ghost function Chain(dest: seq<nat>, nulled: set<nat>, i: nat): set<nat>
    requires 0 < i < |dest| && NULL in nulled && (forall j | 0 <= j < |dest| :: dest[j] < |dest|)
    decreases Plugged(dest)
  {
    var d := dest[i];
    if d in nulled + {i} then {i}
    else
      PluggedUpdate(dest, i, NULL);
      {i} + Chain(dest[i := NULL], nulled + {i}, d)
  }

  /** `dest` with the interfaces in `s` unplugged. */
  function Cut(dest: seq<nat>, s: set<nat>): (r: seq<nat>)
    ensures |r| == |dest|
  {
    seq(|dest|, k requires 0 <= k < |dest| => if k in s then NULL else dest[k])
  }

  predicate AllDefault(w: Wiring) {
    forall d | 0 <= d < |w.handler| :: w.handler[d] == Default
  }

  /** Shutting down unplugs exactly the chain, and leaves only the first interface nullified. */
  lemma {:induction false} ShutdownExact(n: Net, w: Wiring, i: nat)
    requires Inv(n, w) && IsIntf(w, i) && i != NULL && AllDefault(w)
    ensures Shutdown(n, w, i).dest == Cut(n.dest, Chain(n.dest, n.nulled, i))
    ensures Shutdown(n, w, i).nulled == n.nulled + {i}
    decreases Plugged(n.dest)
  {
    var d, t := n.dest[i], Detach(n, w, i);
    HeldAlive(t, w, d);
    GetKeeps(t, w, d);
    var g := Get(t, w, d);
    if d in t.nulled {
      assert Close(t, w, d).dest == t.dest;
    } else {
      ShutdownExact(g, w, d);
      assert Restart(g, w, d).nulled == g.nulled;
      assert Close(t, w, d).dest == Cut(g.dest, Chain(g.dest, g.nulled, d));
      CutMore(n.dest, i, Chain(g.dest, g.nulled, d));
    }
  }

  lemma CutMore(dest: seq<nat>, i: nat, s: set<nat>)
    requires i < |dest|
    ensures Cut(dest[i := NULL], s) == Cut(dest, {i} + s)
  {
  }

  /** Shutting down one end of a pair plugged into each other leaves both ends unplugged and everything else as it was. */
  lemma PairShutdown(n: Net, w: Wiring, a: nat, b: nat)
    requires Inv(n, w) && AllDefault(w) && IsIntf(w, a) && IsIntf(w, b) && a != NULL && a != b
    requires n.dest[a] == b && n.dest[b] == a && b !in n.nulled
    ensures Shutdown(n, w, a).dest == n.dest[a := NULL][b := NULL]
    ensures Shutdown(n, w, a).nulled == n.nulled + {a}
  {
    ShutdownExact(n, w, a);
    PluggedUpdate(n.dest, a, NULL);
    assert Chain(n.dest[a := NULL], n.nulled + {a}, b) == {b};
    assert Chain(n.dest, n.nulled, a) == {a, b};
  }

  // Inserting a filter.

  /** intf_insert(): the old destination is held while it is replugged. */
  function Insert(n: Net, w: Wiring, i: nat, upper: nat, lower: nat): (r: Net)
    requires Inv(n, w) && Held(n, w, i) && Held(n, w, upper) && Held(n, w, lower)
    ensures Inv(r, w) && r.holds == n.holds && r.nulled == n.nulled
  {
    var d := n.dest[i];
    PointedAlive(n, w, i);
    GetKeeps(n, w, d);
    var p := PlugPlug(Get(n, w, d), w, i, upper);
    var q := PlugPlug(p, w, lower, d);
    PutKeeps(q, w, d);
    Put(q, w, d)
  }

  lemma InsertDest(n: Net, w: Wiring, i: nat, upper: nat, lower: nat)
    requires Inv(n, w) && Held(n, w, i) && Held(n, w, upper) && Held(n, w, lower)
    requires i != NULL && upper != NULL && lower != NULL && n.dest[i] != NULL
    ensures Insert(n, w, i, upper, lower).dest == n.dest[i := upper][upper := i][lower := n.dest[i]][n.dest[i] := lower]
  {
  }

  /** An unplugged filter inserted into a pair: both ends keep their counts, and the filter gains its two plugs. */
  lemma InsertCounts(n: Net, w: Wiring, i: nat, d: nat, upper: nat, lower: nat, o: nat)
    requires Inv(n, w) && Held(n, w, i) && Held(n, w, upper) && Held(n, w, lower)
    requires i != NULL && upper != NULL && lower != NULL && d != NULL
    requires i != d && i != upper && i != lower && d != upper && d != lower && upper != lower
    requires IsIntf(w, d) && n.dest[i] == d && n.dest[d] == i && n.dest[upper] == NULL && n.dest[lower] == NULL
    requires o < w.objects
    ensures var r := Insert(n, w, i, upper, lower);
            && r.count[o] == n.count[o] + One(Owns(w, upper, o)) + One(Owns(w, lower, o))
            && (Owns(w, d, o) ==> o !in r.freed)
  {
    var r := Insert(n, w, i, upper, lower);
    var d1 := n.dest[i := upper];
    var d2 := d1[upper := i];
    var d3 := d2[lower := d];
    InsertDest(n, w, i, upper, lower);
    InboundUpdate(n.dest, w, o, i, upper);
    InboundUpdate(d1, w, o, upper, i);
    InboundUpdate(d2, w, o, lower, d);
    InboundUpdate(d3, w, o, d, lower);
    assert CountOk(n, w, o) && CountOk(r, w, o);
    if Owns(w, d, o) {
      PointedAlive(r, w, lower);
    }
  }

  // Runs.

  datatype Op =
    | DoPlug(i: nat, d: nat)
    | DoPlugPlug(a: nat, b: nat)
    | DoUnplug(i: nat)
    | DoInsert(i: nat, upper: nat, lower: nat)
    | DoShutdown(i: nat)
    | DoRestart(i: nat)
    | DoGet(i: nat)
    | DoPut(i: nat)

  /** What the callers owe: references to the interfaces that they name, and no plugging of the null interface. */
  predicate Allowed(n: Net, w: Wiring, op: Op) {
    match op
    case DoPlug(i, d) => Held(n, w, i) && Held(n, w, d)
    case DoPlugPlug(a, b) => Held(n, w, a) && Held(n, w, b)
    case DoUnplug(i) => Held(n, w, i)
    case DoInsert(i, upper, lower) => Held(n, w, i) && Held(n, w, upper) && Held(n, w, lower)
    case DoShutdown(i) => Held(n, w, i) && i != NULL
    case DoRestart(i) => Held(n, w, i) && i != NULL
    case DoGet(i) => IsIntf(w, i) && Alive(n, w, i)
    case DoPut(i) => Held(n, w, i)
  }

  ghost function Step(n: Net, w: Wiring, op: Op): Net
    requires Inv(n, w) && Allowed(n, w, op)
  {
    match op
    case DoPlug(i, d) =>
      HeldAlive(n, w, d);
      Plug(n, w, i, d)
    case DoPlugPlug(a, b) => PlugPlug(n, w, a, b)
    case DoUnplug(i) => Unplug(n, w, i)
    case DoInsert(i, upper, lower) => Insert(n, w, i, upper, lower)
    case DoShutdown(i) => Shutdown(n, w, i)
    case DoRestart(i) => Restart(n, w, i)
    case DoGet(i) => Get(n, w, i)
    case DoPut(i) => Put(n, w, i)
  }

  lemma StepKeeps(n: Net, w: Wiring, op: Op)
    requires Inv(n, w) && Allowed(n, w, op)
    ensures Inv(Step(n, w, op), w)
  {
    match op
    case DoPlug(i, d) => HeldAlive(n, w, d);
    case DoGet(i) => GetKeeps(n, w, i);
    case DoPut(i) => PutKeeps(n, w, i);
    case _ =>
  }

  /** A run: each operation is allowed where it happens. */
  ghost predicate IsRun(states: seq<Net>, w: Wiring, ops: seq<Op>) {
    && |states| == |ops| + 1
    && forall k | 0 <= k < |ops| ::
         Inv(states[k], w) && Allowed(states[k], w, ops[k]) ==> states[k + 1] == Step(states[k], w, ops[k])
  }

  /** New objects, each referenced by its creator. */
  function Fresh(w: Wiring): Net
    requires WellWired(w)
  {
    Net(seq(|w.owner|, _ => NULL), {NULL}, seq(w.objects, _ => 0), {}, seq(w.objects, _ => 1))
  }

  lemma {:induction false} NothingInbound(dest: seq<nat>, w: Wiring, o: nat)
    requires WellWired(w) && forall i | 0 <= i < |dest| :: dest[i] == NULL
    ensures Inbound(dest, w, o) == 0
  {
    if dest != [] {
      NothingInbound(dest[1..], w, o);
    }
  }

  lemma FreshInv(w: Wiring)
    requires WellWired(w)
    ensures Inv(Fresh(w), w)
  {
    var n := Fresh(w);
    forall o | 0 <= o < |n.count|
      ensures CountOk(n, w, o)
    {
      NothingInbound(n.dest, w, o);
    }
  }

  /** In every state of every allowed run, counts are right and nothing that is plugged into or held has been freed. */
  lemma {:induction false} RunSafe(states: seq<Net>, w: Wiring, ops: seq<Op>, k: nat)
    requires WellWired(w) && IsRun(states, w, ops) && states[0] == Fresh(w) && k < |states|
    requires forall j | 0 <= j < k :: Allowed(states[j], w, ops[j])
    ensures Inv(states[k], w)
    ensures forall i | 0 <= i < |states[k].dest| :: Alive(states[k], w, states[k].dest[i])
    ensures forall i: nat | Held(states[k], w, i) :: Alive(states[k], w, i)
  {
    if k == 0 {
      FreshInv(w);
    } else {
      RunSafe(states, w, ops, k - 1);
      StepKeeps(states[k - 1], w, ops[k - 1]);
    }
    forall i | 0 <= i < |states[k].dest|
      ensures Alive(states[k], w, states[k].dest[i])
    {
      PointedAlive(states[k], w, i);
    }
    forall i: nat | Held(states[k], w, i)
      ensures Alive(states[k], w, i)
    {
      HeldAlive(states[k], w, i);
    }
  }
}
