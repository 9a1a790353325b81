/** Object interfaces: plugs between interfaces, and reference counts on the objects that own them. */
module InterfaceNet {
  import opened Basics

  /** The null interface. */
  const NULL := 0

  /** What an interface does when its peer closes: by default it restarts, else its object shuts down some of its interfaces. */
  datatype Handler = Default | Custom(list: seq<nat>)

  /** What does not change: the object that each interface belongs to, if it is counted, and its close handler. */
  datatype Wiring = Wiring(owner: seq<Option<nat>>, handler: seq<Handler>, objects: nat)

  predicate WellWired(w: Wiring) {
    && |w.owner| == |w.handler| > 0 && w.owner[NULL] == None
    && (forall i | 0 <= i < |w.owner| :: w.owner[i].Some? ==> w.owner[i].value < w.objects)
    && (forall d | 0 <= d < |w.handler| :: w.handler[d].Custom? ==> OwnList(w, d, w.handler[d].list))
  }

  /** A handler deals with interfaces of its own object. */
  predicate OwnList(w: Wiring, d: nat, list: seq<nat>)
    requires d < |w.owner|
  {
    forall j | 0 <= j < |list| :: list[j] < |w.owner| && w.owner[list[j]] == w.owner[d] && list[j] != NULL
  }

  /**
    The interfaces and the objects. `nulled` are the interfaces whose descriptor is the
    null descriptor, `freed` the objects whose memory is gone. `holds` counts the
    references that are not plugs: those of callers, and of operations in progress.
   */
  datatype Net = Net(dest: seq<nat>, nulled: set<nat>, count: seq<int>, freed: set<nat>, holds: seq<nat>)

  predicate Shaped(n: Net, w: Wiring) {
    && |n.dest| == |w.owner| && |n.count| == |n.holds| == w.objects
    && 0 < |n.dest| && n.dest[NULL] == NULL && NULL in n.nulled
    && (forall i | 0 <= i < |n.dest| :: n.dest[i] < |w.owner|)
  }

  predicate Owns(w: Wiring, i: nat, o: nat) {
    i < |w.owner| && w.owner[i] == Some(o)
  }

  /** The number of interfaces plugged into those of object `o`. */
  function Inbound(dest: seq<nat>, w: Wiring, o: nat): nat {
    if dest == [] then 0 else (if Owns(w, dest[0], o) then 1 else 0) + Inbound(dest[1..], w, o)
  }

  /** The number of interfaces that are plugged into something. */
  function Plugged(dest: seq<nat>): nat {
    if dest == [] then 0 else (if dest[0] != NULL then 1 else 0) + Plugged(dest[1..])
  }

  lemma {:induction false} InboundUpdate(dest: seq<nat>, w: Wiring, o: nat, i: nat, d: nat)
    requires i < |dest|
    ensures Inbound(dest[i := d], w, o) + One(Owns(w, dest[i], o)) == Inbound(dest, w, o) + One(Owns(w, d, o))
  {
    if i == 0 {
      assert dest[i := d][1..] == dest[1..];
    } else {
      InboundUpdate(dest[1..], w, o, i - 1, d);
      assert dest[i := d][1..] == dest[1..][i - 1 := d];
    }
  }

  lemma {:induction false} PluggedUpdate(dest: seq<nat>, i: nat, d: nat)
    requires i < |dest|
    ensures Plugged(dest[i := d]) + One(dest[i] != NULL) == Plugged(dest) + One(d != NULL)
  {
    if i == 0 {
      assert dest[i := d][1..] == dest[1..];
    } else {
      PluggedUpdate(dest[1..], i - 1, d);
      assert dest[i := d][1..] == dest[1..][i - 1 := d];
    }
  }

  lemma {:induction false} InboundSome(dest: seq<nat>, w: Wiring, o: nat, i: nat)
    requires i < |dest| && Owns(w, dest[i], o)
    ensures Inbound(dest, w, o) > 0
  {
    if i > 0 {
      InboundSome(dest[1..], w, o, i - 1);
    }
  }

  /** The count of `o` is one less than the number of references, and `o` is freed exactly when none is left. */
  predicate CountOk(n: Net, w: Wiring, o: nat)
    requires o < |n.count| == |n.holds|
  {
    && n.count[o] + 1 == Inbound(n.dest, w, o) + n.holds[o]
    && (o in n.freed <==> n.count[o] == -1)
  }

  predicate Counted(n: Net, w: Wiring)
    requires |n.count| == |n.holds|
  {
    forall o | 0 <= o < |n.count| :: CountOk(n, w, o)
  }

  predicate Inv(n: Net, w: Wiring) {
    WellWired(w) && Shaped(n, w) && Counted(n, w)
  }

  /** The memory of the interface has not been freed. */
  predicate Alive(n: Net, w: Wiring, i: nat) {
    i < |w.owner| && (w.owner[i].Some? ==> w.owner[i].value !in n.freed)
  }

  /** The object of the interface is held. */
  predicate Held(n: Net, w: Wiring, i: nat) {
    i < |w.owner| && (w.owner[i].Some? ==> w.owner[i].value < |n.holds| && n.holds[w.owner[i].value] > 0)
  }

  /** What is pointed at is never freed. */
  lemma PointedAlive(n: Net, w: Wiring, i: nat)
    requires Inv(n, w) && i < |n.dest|
    ensures Alive(n, w, n.dest[i])
  {
    var d := n.dest[i];
    if w.owner[d].Some? {
      InboundSome(n.dest, w, w.owner[d].value, i);
      assert CountOk(n, w, w.owner[d].value);
    }
  }

  /** What is held is never freed. */
  lemma HeldAlive(n: Net, w: Wiring, i: nat)
    requires Inv(n, w) && Held(n, w, i)
    ensures Alive(n, w, i)
  {
    if w.owner[i].Some? {
      assert CountOk(n, w, w.owner[i].value);
    }
  }

  // Moving references between plugs and holds.

  /** One fewer reference to the object of `i` is held. */
  function Drop(holds: seq<nat>, w: Wiring, i: nat): seq<nat>
    requires i < |w.owner| && (w.owner[i].Some? ==> w.owner[i].value < |holds| && holds[w.owner[i].value] > 0)
  {
    if w.owner[i].None? then holds else holds[w.owner[i].value := holds[w.owner[i].value] - 1]
  }

  /** One more reference to the object of `i` is held. */
  function Add(holds: seq<nat>, w: Wiring, i: nat): seq<nat>
    requires i < |w.owner| && (w.owner[i].Some? ==> w.owner[i].value < |holds|)
  {
    if w.owner[i].None? then holds else holds[w.owner[i].value := holds[w.owner[i].value] + 1]
  }

  // Reference counts.

  /** ref_increment(), for a reference that the caller then holds. */
  function Get(n: Net, w: Wiring, i: nat): Net
    requires WellWired(w) && Shaped(n, w) && i < |n.dest|
  {
    match w.owner[i]
    case None => n
    case Some(o) => n.(count := n.count[o := n.count[o] + 1], holds := n.holds[o := n.holds[o] + 1])
  }

  /** ref_decrement(): the object is freed when the count falls below zero. */
  function Decrement(n: Net, w: Wiring, i: nat): Net
    requires WellWired(w) && Shaped(n, w) && i < |n.dest|
  {
    match w.owner[i]
    case None => n
    case Some(o) =>
      var c := n.count[o] - 1;
      n.(count := n.count[o := c], freed := if c == -1 then n.freed + {o} else n.freed)
  }

  /** ref_decrement(), for a reference that the caller held. */
  function Put(n: Net, w: Wiring, i: nat): Net
    requires WellWired(w) && Shaped(n, w) && i < |n.dest| && Held(n, w, i)
  {
    Decrement(n, w, i).(holds := Drop(n.holds, w, i))
  }

  lemma GetKeeps(n: Net, w: Wiring, i: nat)
    requires Inv(n, w) && i < |n.dest| && Alive(n, w, i)
    ensures Inv(Get(n, w, i), w) && Held(Get(n, w, i), w, i)
  {
    var g := Get(n, w, i);
    forall o | 0 <= o < |g.count|
      ensures CountOk(g, w, o)
    {
      assert CountOk(n, w, o);
    }
  }

  lemma PutKeeps(n: Net, w: Wiring, i: nat)
    requires Inv(n, w) && i < |n.dest| && Held(n, w, i)
    ensures Inv(Put(n, w, i), w)
  {
    var g := Put(n, w, i);
    forall o | 0 <= o < |g.count|
      ensures CountOk(g, w, o)
    {
      assert CountOk(n, w, o);
    }
  }

  /** Point `i` at `d`: a held reference to `d` becomes the plug, and that of the old plug becomes a held one. */
  function Repoint(n: Net, w: Wiring, i: nat, d: nat): Net
    requires WellWired(w) && Shaped(n, w) && i < |n.dest| && d < |n.dest| && Held(n, w, d)
  {
    n.(dest := n.dest[i := d], holds := Add(Drop(n.holds, w, d), w, n.dest[i]))
  }

  lemma RepointKeeps(n: Net, w: Wiring, i: nat, d: nat)
    requires Inv(n, w) && 0 < i < |n.dest| && d < |n.dest| && Held(n, w, d)
    ensures Inv(Repoint(n, w, i, d), w) && Held(Repoint(n, w, i, d), w, n.dest[i])
  {
    var g := Repoint(n, w, i, d);
    forall o | 0 <= o < |g.count|
      ensures CountOk(g, w, o)
    {
      assert CountOk(n, w, o);
      InboundUpdate(n.dest, w, o, i, d);
    }
  }
}
