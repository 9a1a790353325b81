/** The cooperative scheduler: a run queue of processes, each holding a reference to its object while queued. */
module Process {
  import opened Basics
  import opened Lists

  /** What does not change: the counted object of each process, if any, and whether a process runs again. */
  datatype Procs = Procs(owner: seq<Option<nat>>, again: seq<bool>, objects: nat)

  predicate WellFormed(w: Procs) {
    |w.owner| == |w.again| && forall p | 0 <= p < |w.owner| :: w.owner[p].Some? ==> w.owner[p].value < w.objects
  }

  /** The run queue, and the reference counts. `holds` are the references that are not those of the queue. */
  datatype Sched = Sched(queue: seq<nat>, count: seq<int>, freed: set<nat>, holds: seq<nat>)

  predicate Owns(w: Procs, p: nat, o: nat) {
    p < |w.owner| && w.owner[p] == Some(o)
  }

  /** The number of queued processes of an object. */
  function Queued(queue: seq<nat>, w: Procs, o: nat): nat {
    if queue == [] then 0 else One(Owns(w, queue[0], o)) + Queued(queue[1..], w, o)
  }

  predicate CountOk(s: Sched, w: Procs, o: nat)
    requires o < |s.count| == |s.holds|
  {
    s.count[o] + 1 == Queued(s.queue, w, o) + s.holds[o] && (o in s.freed <==> s.count[o] == -1)
  }

  predicate Inv(s: Sched, w: Procs) {
    && WellFormed(w) && |s.count| == |s.holds| == w.objects
    && Distinct(s.queue) && (forall p | p in s.queue :: p < |w.owner|)
    && (forall o | 0 <= o < |s.count| :: CountOk(s, w, o))
  }

  predicate Alive(s: Sched, w: Procs, p: nat) {
    p < |w.owner| && (w.owner[p].Some? ==> w.owner[p].value !in s.freed)
  }

  predicate Held(s: Sched, w: Procs, p: nat) {
    p < |w.owner| && (w.owner[p].Some? ==> w.owner[p].value < |s.holds| && s.holds[w.owner[p].value] > 0)
  }

  // Counting.

  lemma {:induction false} QueuedAppend(queue: seq<nat>, w: Procs, o: nat, p: nat)
    ensures Queued(queue + [p], w, o) == Queued(queue, w, o) + One(Owns(w, p, o))
  {
    if queue == [] {
      assert queue + [p] == [p] && [p][1..] == [];
    } else {
      QueuedAppend(queue[1..], w, o, p);
      assert (queue + [p])[1..] == queue[1..] + [p];
    }
  }

  lemma {:induction false} QueuedRemove(queue: seq<nat>, w: Procs, o: nat, p: nat)
    requires p in queue
    ensures Queued(Remove(queue, p), w, o) + One(Owns(w, p, o)) == Queued(queue, w, o)
  {
    if queue[0] != p {
      QueuedRemove(queue[1..], w, o, p);
      assert ([queue[0]] + Remove(queue[1..], p))[1..] == Remove(queue[1..], p);
    }
  }

  lemma {:induction false} QueuedSome(queue: seq<nat>, w: Procs, o: nat, p: nat)
    requires p in queue && Owns(w, p, o)
    ensures Queued(queue, w, o) > 0
  {
    if queue[0] != p {
      QueuedSome(queue[1..], w, o, p);
    }
  }

  // References and the queue.

  function Get(s: Sched, w: Procs, p: nat): Sched
    requires Inv(s, w) && p < |w.owner|
  {
    match w.owner[p]
    case None => s
    case Some(o) => s.(count := s.count[o := s.count[o] + 1], holds := s.holds[o := s.holds[o] + 1])
  }

  function Put(s: Sched, w: Procs, p: nat): Sched
    requires Inv(s, w) && Held(s, w, p)
  {
    match w.owner[p]
    case None => s
    case Some(o) =>
      var c := s.count[o] - 1;
      s.(count := s.count[o := c], holds := s.holds[o := s.holds[o] - 1], freed := if c == -1 then s.freed + {o} else s.freed)
  }

  lemma GetKeeps(s: Sched, w: Procs, p: nat)
    requires Inv(s, w) && Alive(s, w, p)
    ensures Inv(Get(s, w, p), w) && Held(Get(s, w, p), w, p)
  {
    var r := Get(s, w, p);
    forall o | 0 <= o < |r.count|
      ensures CountOk(r, w, o)
    {
      assert CountOk(s, w, o);
    }
  }

  lemma PutKeeps(s: Sched, w: Procs, p: nat)
    requires Inv(s, w) && Held(s, w, p)
    ensures Inv(Put(s, w, p), w)
  {
    var r := Put(s, w, p);
    forall o | 0 <= o < |r.count|
      ensures CountOk(r, w, o)
    {
      assert CountOk(s, w, o);
    }
  }

  lemma HeldAlive(s: Sched, w: Procs, p: nat)
    requires Inv(s, w) && Held(s, w, p)
    ensures Alive(s, w, p)
  {
    if w.owner[p].Some? {
      assert CountOk(s, w, w.owner[p].value);
    }
  }

  lemma QueuedAlive(s: Sched, w: Procs, p: nat)
    requires Inv(s, w) && p in s.queue
    ensures Alive(s, w, p)
  {
    if w.owner[p].Some? {
      QueuedSome(s.queue, w, w.owner[p].value, p);
      assert CountOk(s, w, w.owner[p].value);
    }
  }

  function Adjust(holds: seq<nat>, w: Procs, p: nat, up: bool): seq<nat>
    requires p < |w.owner| && (w.owner[p].Some? ==> w.owner[p].value < |holds| && (up || holds[w.owner[p].value] > 0))
  {
    if w.owner[p].None? then holds
    else holds[w.owner[p].value := if up then holds[w.owner[p].value] + 1 else holds[w.owner[p].value] - 1]
  }

  /** Append a process that is not queued; a held reference becomes that of the queue. */
  function Enqueue(s: Sched, w: Procs, p: nat): (r: Sched)
    requires Inv(s, w) && p !in s.queue && Held(s, w, p)
    ensures Inv(r, w)
  {
    EnqueueKeeps(s, w, p);
    s.(queue := s.queue + [p], holds := Adjust(s.holds, w, p, false))
  }

  lemma EnqueueKeeps(s: Sched, w: Procs, p: nat)
    requires Inv(s, w) && p !in s.queue && Held(s, w, p)
    ensures Inv(s.(queue := s.queue + [p], holds := Adjust(s.holds, w, p, false)), w)
  {
    var r := s.(queue := s.queue + [p], holds := Adjust(s.holds, w, p, false));
    AppendDistinct(s.queue, p);
    forall o | 0 <= o < |r.count|
      ensures CountOk(r, w, o)
    {
      assert CountOk(s, w, o);
      QueuedAppend(s.queue, w, o, p);
    }
  }

  /** Take a process off the queue; the queue's reference becomes a held one. */
  function Dequeue(s: Sched, w: Procs, p: nat): (r: Sched)
    requires Inv(s, w) && p in s.queue
    ensures Inv(r, w) && Held(r, w, p) && p !in r.queue
  {
    DequeueKeeps(s, w, p);
    s.(queue := Remove(s.queue, p), holds := Adjust(s.holds, w, p, true))
  }

  lemma DequeueKeeps(s: Sched, w: Procs, p: nat)
    requires Inv(s, w) && p in s.queue
    ensures var r := s.(queue := Remove(s.queue, p), holds := Adjust(s.holds, w, p, true));
            Inv(r, w) && Held(r, w, p) && p !in r.queue
  {
    var r := s.(queue := Remove(s.queue, p), holds := Adjust(s.holds, w, p, true));
    RemoveMembers(s.queue, p);
    forall o | 0 <= o < |r.count|
      ensures CountOk(r, w, o)
    {
      assert CountOk(s, w, o);
      QueuedRemove(s.queue, w, o, p);
    }
  }

  /** process_add(): a second call has no effect. */
  function Add(s: Sched, w: Procs, p: nat): (r: Sched)
    requires Inv(s, w) && Alive(s, w, p)
    ensures Inv(r, w) && r.holds == s.holds && r.queue == (if p in s.queue then s.queue else s.queue + [p])
  {
    if p in s.queue then s
    else
      GetKeeps(s, w, p);
      Enqueue(Get(s, w, p), w, p)
  }

  /** process_del(): a second call has no effect. */
  function Del(s: Sched, w: Procs, p: nat): (r: Sched)
    requires Inv(s, w) && p < |w.owner|
    ensures Inv(r, w) && r.holds == s.holds && r.queue == (if p in s.queue then Remove(s.queue, p) else s.queue)
  {
    if p in s.queue then
      var d := Dequeue(s, w, p);
      PutKeeps(d, w, p);
      Put(d, w, p)
    else s
  }

  // One step.

  /** What a process may do while it runs. */
  datatype Act = DoAdd(p: nat) | DoDel(p: nat) | DoGet(p: nat) | DoPut(p: nat)

  /** References are taken to live objects only, and the reference that the scheduler holds for `cur` is not the process's to drop. */
  predicate Allowed(s: Sched, w: Procs, cur: nat, a: Act) {
    match a
    case DoAdd(p) => Alive(s, w, p)
    case DoDel(p) => p < |w.owner|
    case DoGet(p) => Alive(s, w, p)
    case DoPut(p) =>
      p < |w.owner| && (w.owner[p].Some? ==>
        w.owner[p].value < |s.holds| && s.holds[w.owner[p].value] > One(Owns(w, cur, w.owner[p].value)))
  }

  function Do(s: Sched, w: Procs, cur: nat, a: Act): (r: Sched)
    requires Inv(s, w) && Held(s, w, cur) && Allowed(s, w, cur, a)
    ensures Inv(r, w) && Held(r, w, cur)
  {
    match a
    case DoAdd(p) => Add(s, w, p)
    case DoDel(p) => Del(s, w, p)
    case DoGet(p) =>
      GetKeeps(s, w, p);
      Get(s, w, p)
    case DoPut(p) =>
      PutKeeps(s, w, p);
      Put(s, w, p)
  }

  predicate AllAllowed(s: Sched, w: Procs, cur: nat, acts: seq<Act>)
    decreases |acts|
  {
    acts == [] ||
    (Inv(s, w) && Held(s, w, cur) && Allowed(s, w, cur, acts[0]) && AllAllowed(Do(s, w, cur, acts[0]), w, cur, acts[1..]))
  }

  /** The process's step function; its object stays alive throughout. */
  function DoAll(s: Sched, w: Procs, cur: nat, acts: seq<Act>): (r: Sched)
    requires Inv(s, w) && Held(s, w, cur) && AllAllowed(s, w, cur, acts)
    ensures Inv(r, w) && Held(r, w, cur) && Alive(r, w, cur)
    decreases |acts|
  {
    HeldAlive(s, w, cur);
    if acts == [] then s else DoAll(Do(s, w, cur, acts[0]), w, cur, acts[1..])
  }

  /** The state in which the first process of the queue starts to run: held by the scheduler, and at the end of the queue or off it. */
  function Begin(s: Sched, w: Procs): (r: Sched)
    requires Inv(s, w) && s.queue != []
    ensures Inv(r, w) && Held(r, w, s.queue[0])
    ensures r.queue == (if w.again[s.queue[0]] then s.queue[1..] + [s.queue[0]] else s.queue[1..])
  {
    var p := s.queue[0];
    QueuedAlive(s, w, p);
    GetKeeps(s, w, p);
    var g := Get(s, w, p);
    if w.again[p] then Enqueue(Dequeue(g, w, p), w, p) else Del(g, w, p)
  }

  /** step() */
  function Step(s: Sched, w: Procs, acts: seq<Act>): (r: Sched)
    requires Inv(s, w) && (s.queue != [] ==> AllAllowed(Begin(s, w), w, s.queue[0], acts))
    ensures Inv(r, w)
  {
    if s.queue == [] then s
    else
      var d := DoAll(Begin(s, w), w, s.queue[0], acts);
      PutKeeps(d, w, s.queue[0]);
      Put(d, w, s.queue[0])
  }

  // Fairness.

  /** The position of a queued process. */
  function Place(queue: seq<nat>, p: nat): (k: nat)
    requires p in queue
    ensures k < |queue| && queue[k] == p
  {
    if queue[0] == p then 0 else 1 + Place(queue[1..], p)
  }

  lemma {:induction false} PlaceAppend(queue: seq<nat>, p: nat, q: nat)
    requires p in queue
    ensures p in queue + [q] && Place(queue + [q], p) == Place(queue, p)
  {
    if queue[0] != p {
      PlaceAppend(queue[1..], p, q);
      assert (queue + [q])[1..] == queue[1..] + [q];
    }
  }

  lemma {:induction false} PlaceRemove(queue: seq<nat>, p: nat, q: nat)
    requires p in queue && p != q
    ensures p in Remove(queue, q) && Place(Remove(queue, q), p) <= Place(queue, p)
  {
    if queue[0] == q {
    } else if queue[0] != p {
      PlaceRemove(queue[1..], p, q);
      assert Remove(queue, q)[1..] == Remove(queue[1..], q);
    }
  }

  /** Nothing deletes `p`. */
  predicate Spares(acts: seq<Act>, p: nat) {
    forall i | 0 <= i < |acts| :: acts[i] != DoDel(p)
  }

  /** Whatever a process does, another that it does not delete moves no further back. */
  lemma {:induction false} DoAllPlace(s: Sched, w: Procs, cur: nat, acts: seq<Act>, p: nat)
    requires Inv(s, w) && Held(s, w, cur) && AllAllowed(s, w, cur, acts) && p in s.queue && Spares(acts, p)
    ensures p in DoAll(s, w, cur, acts).queue && Place(DoAll(s, w, cur, acts).queue, p) <= Place(s.queue, p)
    decreases |acts|
  {
    if acts != [] {
      match acts[0] {
        case DoAdd(q) =>
          if q !in s.queue {
            PlaceAppend(s.queue, p, q);
          }
        case DoDel(q) =>
          assert acts[0] != DoDel(p);
          if q in s.queue {
            PlaceRemove(s.queue, p, q);
          }
        case DoGet(q) =>
        case DoPut(q) =>
      }
      DoAllPlace(Do(s, w, cur, acts[0]), w, cur, acts[1..], p);
    }
  }

  /** A step brings every other process forward. */
  lemma StepPlace(s: Sched, w: Procs, acts: seq<Act>, p: nat)
    requires Inv(s, w) && p in s.queue && s.queue[0] != p && AllAllowed(Begin(s, w), w, s.queue[0], acts) && Spares(acts, p)
    ensures p in Step(s, w, acts).queue && Place(Step(s, w, acts).queue, p) < Place(s.queue, p)
  {
    var b := Begin(s, w);
    if w.again[s.queue[0]] {
      PlaceAppend(s.queue[1..], p, s.queue[0]);
    }
    DoAllPlace(b, w, s.queue[0], acts, p);
  }

  /** A run of the scheduler: each state follows from the one before by a step. */
  ghost predicate IsRun(states: seq<Sched>, w: Procs, steps: seq<seq<Act>>) {
    && |states| == |steps| + 1 && Inv(states[0], w)
    && forall i | 0 <= i < |steps| ::
         Inv(states[i], w) ==>
           && (states[i].queue != [] ==> AllAllowed(Begin(states[i], w), w, states[i].queue[0], steps[i]))
           && states[i + 1] == Step(states[i], w, steps[i])
  }

  lemma {:induction false} RunKeeps(states: seq<Sched>, w: Procs, steps: seq<seq<Act>>, i: nat)
    requires IsRun(states, w, steps) && i < |states|
    ensures Inv(states[i], w)
  {
    if i > 0 {
      RunKeeps(states, w, steps, i - 1);
    }
  }

  /** A process in the queue at position k, and not deleted, is the one that runs in one of the next k + 1 steps. */
  lemma {:induction false} Fair(states: seq<Sched>, w: Procs, steps: seq<seq<Act>>, i: nat, p: nat) returns (j: nat)
    requires IsRun(states, w, steps) && i < |steps| && p in states[i].queue && i + Place(states[i].queue, p) < |steps|
    requires forall m | i <= m < |steps| :: Spares(steps[m], p)
    ensures i <= j <= i + Place(states[i].queue, p) && states[j].queue != [] && states[j].queue[0] == p
    decreases Place(states[i].queue, p)
  {
    RunKeeps(states, w, steps, i);
    if states[i].queue[0] == p {
      j := i;
    } else {
      StepPlace(states[i], w, steps[i], p);
      j := Fair(states, w, steps, i + 1, p);
    }
  }

  // The code.

  class Scheduler {
    const w: Procs
    var queue: seq<nat>
    var count: seq<int>
    var freed: set<nat>
    ghost var holds: seq<nat>

    ghost function State(): Sched
      reads this
    {
      Sched(queue, count, freed, holds)
    }

    constructor (w: Procs)
      requires WellFormed(w)
      ensures this.w == w && Inv(State(), w) && queue == []
    {
      this.w := w;
      queue, count, freed, holds := [], seq(w.objects, _ => 0), {}, seq(w.objects, _ => 1);
    }

    method RefGet(p: nat)
      requires Inv(State(), w) && Alive(State(), w, p)
      modifies this
      ensures State() == Get(old(State()), w, p)
    {
      if w.owner[p].Some? {
        var o := w.owner[p].value;
        count, holds := count[o := count[o] + 1], holds[o := holds[o] + 1];
      }
    }

    method RefPut(p: nat)
      requires Inv(State(), w) && Held(State(), w, p)
      modifies this
      ensures State() == Put(old(State()), w, p)
    {
      if w.owner[p].Some? {
        var o := w.owner[p].value;
        count, holds := count[o := count[o] - 1], holds[o := holds[o] - 1];
        if count[o] == -1 {
          freed := freed + {o};
        }
      }
    }

    /** process_add() */
    method AddProcess(p: nat)
      requires Inv(State(), w) && Alive(State(), w, p)
      modifies this
      ensures State() == Add(old(State()), w, p)
    {
      if p !in queue {
        GetKeeps(State(), w, p);
        RefGet(p);
        queue, holds := queue + [p], Adjust(holds, w, p, false);
      }
    }

    /** process_del() */
    method DelProcess(p: nat)
      requires Inv(State(), w) && p < |w.owner|
      modifies this
      ensures State() == Del(old(State()), w, p)
    {
      if p in queue {
        DequeueKeeps(State(), w, p);
        queue, holds := Remove(queue, p), Adjust(holds, w, p, true);
        RefPut(p);
      }
    }

    /** step(); `acts` is what the process does. */
    method StepOnce(acts: seq<Act>) returns (ran: Option<nat>)
      requires Inv(State(), w) && (queue != [] ==> AllAllowed(Begin(State(), w), w, queue[0], acts))
      modifies this
      ensures State() == Step(old(State()), w, acts)
      ensures ran == if old(queue) == [] then None else Some(old(queue)[0])
    {
      if queue == [] {
        return None;
      }
      var p := queue[0];
      ran := Some(p);
      QueuedAlive(State(), w, p);
      GetKeeps(State(), w, p);
      RefGet(p);
      if w.again[p] {
        ghost var d := Dequeue(State(), w, p);
        queue, holds := Remove(queue, p), Adjust(holds, w, p, true);
        assert State() == d;
        queue, holds := queue + [p], Adjust(holds, w, p, false);
        assert State() == Enqueue(d, w, p);
      } else {
        DelProcess(p);
      }
      assert State() == Begin(old(State()), w);
      RunActs(p, acts);
      RefPut(p);
    }

    method RunActs(p: nat, acts: seq<Act>)
      requires Inv(State(), w) && Held(State(), w, p) && AllAllowed(State(), w, p, acts)
      modifies this
      ensures State() == DoAll(old(State()), w, p, acts)
    {
      ghost var s := State();
      for i := 0 to |acts|
        invariant Inv(State(), w) && Held(State(), w, p) && AllAllowed(State(), w, p, acts[i..])
        invariant DoAll(State(), w, p, acts[i..]) == DoAll(s, w, p, acts)
      {
        assert acts[i..][0] == acts[i] && acts[i..][1..] == acts[i + 1..];
        match acts[i] {
          case DoAdd(q) => AddProcess(q);
          case DoDel(q) => DelProcess(q);
          case DoGet(q) => RefGet(q);
          case DoPut(q) => RefPut(q);
        }
      }
    }
  }
}
