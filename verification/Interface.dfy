/** The code of interface.c and refcnt.c: every access is to memory that has not been freed. */
module Interface {
  import opened InterfaceNet
  import opened InterfaceClose

  class Interfaces {
    const w: Wiring
    var dest: seq<nat>
    var nulled: set<nat>
    var count: seq<int>
    var freed: set<nat>
    ghost var holds: seq<nat>

    ghost function State(): Net
      reads this
    {
      Net(dest, nulled, count, freed, holds)
    }

    constructor (w: Wiring)
      requires WellWired(w)
      ensures this.w == w && State() == Fresh(w)
    {
      this.w := w;
      dest, nulled, count, freed, holds :=
        seq(|w.owner|, _ => NULL), {NULL}, seq(w.objects, _ => 0), {}, seq(w.objects, _ => 1);
    }

    // Reference counts.

    /** intf_get() and ref_increment() */
    method RefGet(i: nat)
      requires Inv(State(), w) && IsIntf(w, i) && Alive(State(), w, i)
      modifies this
      ensures State() == Get(old(State()), w, i)
    {
      if w.owner[i].Some? {
        var o := w.owner[i].value;
        count := count[o := count[o] + 1];
        holds := holds[o := holds[o] + 1];
      }
    }

    /** ref_decrement(): a count that falls below -1 would be an error, and never happens. */
    method RefDecrement(i: nat)
      requires WellWired(w) && Shaped(State(), w) && IsIntf(w, i)
      requires w.owner[i].Some? ==> count[w.owner[i].value] >= 0
      modifies this
      ensures State() == Decrement(old(State()), w, i)
    {
      if w.owner[i].Some? {
        var o := w.owner[i].value;
        count := count[o := count[o] - 1];
        if count[o] >= 0 {
          return;
        }
        if count[o] < -1 {
          assert false;
        }
        freed := freed + {o};
      }
    }

    /** intf_put(), of a reference that the caller holds. */
    method RefPut(i: nat)
      requires Inv(State(), w) && IsIntf(w, i) && Held(State(), w, i)
      modifies this
      ensures State() == Put(old(State()), w, i)
    {
      assert w.owner[i].Some? ==> CountOk(State(), w, w.owner[i].value);
      RefDecrement(i);
      holds := Drop(holds, w, i);
    }

    // Fields of an interface. Each access needs the interface to be in memory.

    function Dest(i: nat): nat
      requires IsIntf(w, i) && |dest| == |w.owner| && Alive(Net(dest, nulled, count, freed, []), w, i)
      reads this
    {
      dest[i]
    }

    function IsNull(i: nat): bool
      requires IsIntf(w, i) && Alive(Net(dest, nulled, count, freed, []), w, i)
      reads this
    {
      i in nulled
    }

    /** Store the destination. */
    method StoreDest(i: nat, d: nat)
      requires IsIntf(w, i) && |dest| == |w.owner| && Alive(State(), w, i)
      modifies this
      ensures State() == old(State()).(dest := old(dest)[i := d])
    {
      dest := dest[i := d];
    }

    /** Store the destination of an interface whose old plug passes to the caller; the new plug's reference changes hands with one that is held. */
    method SetDest(i: nat, d: nat)
      requires Inv(State(), w) && IsIntf(w, i) && IsIntf(w, d) && Alive(State(), w, i) && Held(State(), w, d)
      modifies this
      ensures State() == Repoint(old(State()), w, i, d)
    {
      holds := Add(Drop(holds, w, d), w, dest[i]);
      StoreDest(i, d);
    }

    /** intf_nullify() */
    method SetNull(i: nat)
      requires Inv(State(), w) && IsIntf(w, i) && Alive(State(), w, i)
      modifies this
      ensures State() == old(State()).(nulled := old(nulled) + {i})
    {
      nulled := nulled + {i};
    }

    /** intf_reinit() */
    method Reinit(i: nat)
      requires Inv(State(), w) && IsIntf(w, i) && Alive(State(), w, i)
      modifies this
      ensures State() == old(State()).(nulled := old(nulled) - {i})
    {
      nulled := nulled - {i};
    }

    // Closing.

    /** intf_shutdown(): the temporary interface lives in `d`, which keeps the plug's reference. */
    method ShutdownIntf(i: nat)
      requires Inv(State(), w) && IsIntf(w, i) && i != NULL && Alive(State(), w, i)
      modifies this
      ensures State() == Shutdown(old(State()), w, i)
      decreases Plugged(dest), 1
    {
      ghost var n := State();
      SetNull(i);
      NulledKeeps(n, w, nulled);
      var d := Dest(i);
      SetDest(i, NULL);
      assert State() == Detach(n, w, i);
      CloseIntf(d);
      RefPut(d);
    }

    /** intf_close() */
    method CloseIntf(d: nat)
      requires Inv(State(), w) && IsIntf(w, d) && Held(State(), w, d)
      modifies this
      ensures State() == Close(old(State()), w, d)
      decreases Plugged(dest), if d == NULL then 0 else 5
    {
      HeldAlive(State(), w, d);
      GetKeeps(State(), w, d);
      RefGet(d);
      HeldAlive(State(), w, d);
      if !IsNull(d) {
        match w.handler[d] {
          case Default =>
            RestartIntf(d);
          case Custom(list) =>
            ShutdownList(list, d);
        }
      }
      RefPut(d);
    }

    /** intf_restart(), by a caller that holds the object. */
    method RestartIntf(i: nat)
      requires Inv(State(), w) && IsIntf(w, i) && i != NULL && Held(State(), w, i)
      modifies this
      ensures State() == Restart(old(State()), w, i)
      decreases Plugged(dest), 2
    {
      HeldAlive(State(), w, i);
      ShutdownIntf(i);
      HeldAlive(State(), w, i);
      Reinit(i);
    }

    /** intfs_shutdown() on interfaces of the object of `d`, which the caller holds. */
    method ShutdownList(list: seq<nat>, d: nat)
      requires Inv(State(), w) && IsIntf(w, d) && Held(State(), w, d) && OwnList(w, d, list)
      modifies this
      ensures State() == ShutdownAll(Nullify(old(State()), w, list), w, list)
      decreases Plugged(dest), 4
    {
      ghost var n := State();
      HeldAlive(n, w, d);
      for k := 0 to |list|
        invariant Inv(State(), w) && Held(State(), w, d) && Alive(State(), w, d)
        invariant State() == n.(nulled := n.nulled + set i | i in list[..k])
      {
        assert list[..k + 1] == list[..k] + [list[k]];
        SetNull(list[k]);
        NulledKeeps(n, w, nulled);
      }
      assert list[..|list|] == list;
      assert State() == Nullify(n, w, list);
      ShutdownEach(list, d);
    }

    method ShutdownEach(list: seq<nat>, d: nat)
      requires Inv(State(), w) && IsIntf(w, d) && Held(State(), w, d) && OwnList(w, d, list)
      modifies this
      ensures State() == ShutdownAll(old(State()), w, list)
      decreases Plugged(dest), 3
    {
      ghost var n := State();
      for k := 0 to |list|
        invariant Inv(State(), w) && Held(State(), w, d) && Plugged(dest) <= Plugged(n.dest)
        invariant ShutdownAll(State(), w, list[k..]) == ShutdownAll(n, w, list)
      {
        assert list[k..][0] == list[k] && list[k..][1..] == list[k + 1..];
        HeldAlive(State(), w, d);
        ShutdownIntf(list[k]);
      }
    }

    // Plugging.

    /** intf_plug(): the old destination is released before the new one is stored. */
    method PlugIntf(i: nat, d: nat)
      requires Inv(State(), w) && IsIntf(w, i) && IsIntf(w, d) && Alive(State(), w, i) && Alive(State(), w, d)
      requires i != NULL ==> !OwnLastPlug(State(), w, i, d)
      modifies this
      ensures State() == Plug(old(State()), w, i, d)
    {
      if i == NULL {
        return;
      }
      ghost var n := State();
      PlugStoreExact(n, w, i, d);
      GetKeeps(n, w, d);
      RefGet(d);
      var was := Dest(i);
      PointedAlive(n, w, i);
      assert w.owner[was].Some? ==> CountOk(n, w, w.owner[was].value);
      RefDecrement(was);
      StoreDest(i, d);
      holds := n.holds;
    }

    /** intf_unplug() */
    method UnplugIntf(i: nat)
      requires Inv(State(), w) && IsIntf(w, i) && Alive(State(), w, i) && !OwnLastPlug(State(), w, i, NULL)
      modifies this
      ensures State() == Unplug(old(State()), w, i)
    {
      ghost var n := State();
      if i != NULL {
        PlugStoreExact(n, w, i, NULL);
      }
      var was := Dest(i);
      PointedAlive(n, w, i);
      assert w.owner[was].Some? ==> CountOk(n, w, w.owner[was].value);
      RefDecrement(was);
      StoreDest(i, NULL);
    }

    /** intf_plug_plug() */
    method PlugPair(a: nat, b: nat)
      requires Inv(State(), w) && Held(State(), w, a) && Held(State(), w, b)
      modifies this
      ensures State() == PlugPlug(old(State()), w, a, b)
    {
      HeldAlive(State(), w, a);
      HeldAlive(State(), w, b);
      HeldPlugSafe(State(), w, a, b);
      PlugIntf(a, b);
      HeldAlive(State(), w, a);
      HeldAlive(State(), w, b);
      HeldPlugSafe(State(), w, b, a);
      PlugIntf(b, a);
    }

    /** intf_insert() */
    method InsertFilter(i: nat, upper: nat, lower: nat)
      requires Inv(State(), w) && Held(State(), w, i) && Held(State(), w, upper) && Held(State(), w, lower)
      modifies this
      ensures State() == Insert(old(State()), w, i, upper, lower)
    {
      HeldAlive(State(), w, i);
      var d := Dest(i);
      PointedAlive(State(), w, i);
      GetKeeps(State(), w, d);
      RefGet(d);
      PlugPair(i, upper);
      PlugPair(lower, d);
      RefPut(d);
    }
  }
}
