/** SAN devices: paths that are opened and closed, commands that are retried, and transfers split into fragments. */
module San {
  import opened Basics
  import opened Lists

  // Fragments of a transfer.

  /** One command: a first block, a number of blocks, and where their data lies in the buffer. */
  datatype Fragment = Fragment(lba: nat, count: nat, offset: nat)

  /** Where the data of the next fragment lies in the buffer. */
  function After(offset: nat, blksize: nat, n: nat): nat {
    offset + blksize * n
  }

  /** The fragments of a transfer of `remaining` blocks. */
  function Fragments(lba: nat, remaining: nat, max: nat, blksize: nat, offset: nat): seq<Fragment>
    requires max > 0
    decreases remaining
  {
    if remaining == 0 then []
    else
      var n := if max > remaining then remaining else max;
      [Fragment(lba, n, offset)] + Fragments(lba + n, remaining - n, max, blksize, After(offset, blksize, n))
  }

  /** Fragments follow each other on the disk and in the buffer, from `lba` and `offset` on, and none is empty or too long. */
  predicate Contiguous(fs: seq<Fragment>, lba: nat, max: nat, blksize: nat, offset: nat) {
    fs == [] ||
    (fs[0].lba == lba && fs[0].offset == offset && 0 < fs[0].count <= max &&
     Contiguous(fs[1..], lba + fs[0].count, max, blksize, After(offset, blksize, fs[0].count)))
  }

  function Total(fs: seq<Fragment>): nat {
    if fs == [] then 0 else fs[0].count + Total(fs[1..])
  }

  /** The fragments cover the transfer, each block once and in order. */
  lemma {:induction false} FragmentsCover(lba: nat, remaining: nat, max: nat, blksize: nat, offset: nat)
    requires max > 0
    ensures var fs := Fragments(lba, remaining, max, blksize, offset);
            Contiguous(fs, lba, max, blksize, offset) && Total(fs) == remaining
    decreases remaining
  {
    if remaining > 0 {
      var n := if max > remaining then remaining else max;
      FragmentsCover(lba + n, remaining - n, max, blksize, After(offset, blksize, n));
    }
  }

  /** Each block of a contiguous transfer is in exactly one fragment, which puts it where it belongs in the buffer. */
  lemma {:induction false} BlockInOne(fs: seq<Fragment>, lba: nat, max: nat, blksize: nat, offset: nat, b: nat) returns (i: nat)
    requires Contiguous(fs, lba, max, blksize, offset) && lba <= b < lba + Total(fs)
    ensures i < |fs| && fs[i].lba <= b < fs[i].lba + fs[i].count
    ensures fs[i].offset + blksize * (b - fs[i].lba) == offset + blksize * (b - lba)
    ensures forall j | 0 <= j < |fs| && j != i :: !(fs[j].lba <= b < fs[j].lba + fs[j].count)
  {
    var next := lba + fs[0].count;
    if b < next {
      i := 0;
      forall j | 0 < j < |fs|
        ensures !(fs[j].lba <= b < fs[j].lba + fs[j].count)
      {
        LaterBlocks(fs[1..], next, max, blksize, After(offset, blksize, fs[0].count), j - 1);
      }
    } else {
      i := BlockInOne(fs[1..], next, max, blksize, After(offset, blksize, fs[0].count), b);
      assert blksize * (b - lba) == blksize * fs[0].count + blksize * (b - next);
      i := i + 1;
      assert forall j | 0 < j < |fs| :: fs[j] == fs[1..][j - 1];
    }
  }

  lemma {:induction false} LaterBlocks(fs: seq<Fragment>, lba: nat, max: nat, blksize: nat, offset: nat, j: nat)
    requires Contiguous(fs, lba, max, blksize, offset) && j < |fs|
    ensures fs[j].lba >= lba
  {
    if j > 0 {
      LaterBlocks(fs[1..], lba + fs[0].count, max, blksize, After(offset, blksize, fs[0].count), j - 1);
    }
  }

  const WORD32: nat := 0x1_0000_0000
  const WORD64: nat := 0x1_0000_0000_0000_0000

  function Shl(n: nat, shift: nat): nat {
    if shift == 0 then n else 2 * Shl(n, shift - 1)
  }

  /** The fragments with their block addresses reduced to 64 bits. */
  function Wrapped(fs: seq<Fragment>): seq<Fragment> {
    if fs == [] then [] else [fs[0].(lba := fs[0].lba % WORD64)] + Wrapped(fs[1..])
  }

  /** The commands of a transfer: the block count has 32 bits and the block address 64. */
  function Commands(lba: nat, count: nat, shift: nat, max: nat, blksize: nat): seq<Fragment>
    requires max > 0
  {
    Wrapped(Fragments(Shl(lba, shift), Shl(count, shift) % WORD32, max, blksize, 0))
  }

  /**
    sandev_rw(): the commands issued, up to and including the first that fails. `status`
    gives the result of each command.
   */
  method ReadWrite(lba: nat, count: nat, shift: nat, max: nat, blksize: nat, status: nat -> int)
    returns (rc: int, issued: seq<Fragment>)
    requires max > 0
    ensures issued <= Commands(lba, count, shift, max, blksize)
    ensures rc == 0 ==> issued == Commands(lba, count, shift, max, blksize)
    ensures rc != 0 ==> issued != [] && rc == status(|issued| - 1)
    ensures forall i | 0 <= i < |issued| && (rc == 0 || i < |issued| - 1) :: status(i) == 0
  {
    var total := Shl(count, shift) % WORD32;
    var at: nat, n: nat, remaining: nat, offset: nat := Shl(lba, shift) % WORD64, max, total, 0;
    ghost var place: nat, all := Shl(lba, shift), Commands(lba, count, shift, max, blksize);
    issued, rc := [], 0;
    while remaining > 0
      invariant rc == 0 && (remaining == 0 || n == max) && at == place % WORD64
      invariant issued + Wrapped(Fragments(place, remaining, max, blksize, offset)) == all
      invariant forall i | 0 <= i < |issued| :: status(i) == 0
      decreases remaining
    {
      if n > remaining {
        n := remaining;
      }
      var next := After(offset, blksize, n);
      NextFragment(issued, place, at, remaining, n, max, blksize, offset, next);
      issued := issued + [Fragment(at, n, offset)];
      rc := status(|issued| - 1);
      if rc != 0 {
        return;
      }
      AddressAfter(place, at, n);
      offset, at, remaining := next, (at + n) % WORD64, remaining - n;
      place := place + n;
    }
  }

  lemma AddressAfter(place: nat, at: nat, n: nat)
    requires at == place % WORD64
    ensures (at + n) % WORD64 == (place + n) % WORD64
  {
  }

  lemma NextFragment(issued: seq<Fragment>, place: nat, at: nat, remaining: nat, n: nat, max: nat, blksize: nat,
                     offset: nat, next: nat)
    requires remaining > 0 && max > 0 && n == (if max > remaining then remaining else max)
    requires at == place % WORD64 && next == After(offset, blksize, n)
    ensures issued + Wrapped(Fragments(place, remaining, max, blksize, offset))
            == (issued + [Fragment(at, n, offset)]) + Wrapped(Fragments(place + n, remaining - n, max, blksize, next))
  {
    var f, rest := Fragment(place, n, offset), Fragments(place + n, remaining - n, max, blksize, next);
    assert Fragments(place, remaining, max, blksize, offset) == [f] + rest;
    WrappedCons(f, rest);
  }

  lemma WrappedCons(f: Fragment, rest: seq<Fragment>)
    ensures Wrapped([f] + rest) == [f.(lba := f.lba % WORD64)] + Wrapped(rest)
  {
    assert ([f] + rest)[1..] == rest;
  }

  /** The addresses need no reduction exactly if the last one does not. */
  lemma {:induction false} WrappedExact(fs: seq<Fragment>, lba: nat, max: nat, blksize: nat, offset: nat)
    requires Contiguous(fs, lba, max, blksize, offset)
    ensures Wrapped(fs) == fs <==> fs == [] || fs[|fs| - 1].lba < WORD64
  {
    if fs != [] {
      var next := lba + fs[0].count;
      WrappedExact(fs[1..], next, max, blksize, After(offset, blksize, fs[0].count));
      assert Wrapped(fs)[1..] == Wrapped(fs[1..]) && fs == [fs[0]] + fs[1..];
      LaterBlocks(fs, lba, max, blksize, offset, |fs| - 1);
      if |fs| > 1 {
        assert fs[1..][|fs| - 2] == fs[|fs| - 1];
      }
    }
  }

  /** The commands are those of the transfer asked for exactly if the block count fits in 32 bits and the last address in 64. */
  lemma WholeTransfer(lba: nat, count: nat, shift: nat, max: nat, blksize: nat)
    requires max > 0
    ensures var asked := Fragments(Shl(lba, shift), Shl(count, shift), max, blksize, 0);
            Commands(lba, count, shift, max, blksize) == asked
            <==> Shl(count, shift) < WORD32 && (asked == [] || asked[|asked| - 1].lba < WORD64)
  {
    CommandsExact(Shl(lba, shift), Shl(count, shift), Shl(count, shift) % WORD32, max, blksize);
  }

  lemma CommandsExact(first: nat, n: nat, m: nat, max: nat, blksize: nat)
    requires max > 0 && m == n % WORD32
    ensures var asked := Fragments(first, n, max, blksize, 0);
            Wrapped(Fragments(first, m, max, blksize, 0)) == asked
            <==> n < WORD32 && (asked == [] || asked[|asked| - 1].lba < WORD64)
  {
    FragmentsCover(first, n, max, blksize, 0);
    FragmentsCover(first, m, max, blksize, 0);
    WrappedExact(Fragments(first, n, max, blksize, 0), first, max, blksize, 0);
    WrappedTotal(Fragments(first, m, max, blksize, 0));
  }

  lemma {:induction false} WrappedTotal(fs: seq<Fragment>)
    ensures Total(Wrapped(fs)) == Total(fs)
  {
    if fs != [] {
      WrappedTotal(fs[1..]);
      assert Wrapped(fs)[1..] == Wrapped(fs[1..]);
    }
  }

  // Retries.

  /** How one attempt at a command ends: the device cannot be opened, the command cannot be started, or it completes. */
  datatype Outcome = Unopened(rc: int) | Unstarted(rc: int) | Completed(rc: int)

  /** A failure that counts towards the limit: on a multipath device, failing to open does not. */
  predicate Counts(o: Outcome, paths: nat) {
    match o
    case Unopened(rc) => paths <= 1
    case Unstarted(rc) => true
    case Completed(rc) => rc != 0
  }

  predicate Good(o: Outcome) {
    o == Completed(0)
  }

  function Failures(os: seq<Outcome>, paths: nat): nat {
    if os == [] then 0 else Failures(os[..|os| - 1], paths) + if Counts(os[|os| - 1], paths) then 1 else 0
  }

  /** The end of a command after some attempts, or none if the outcomes given run out while it still retries. */
  datatype Verdict = Success(attempts: nat) | Failure(attempts: nat, rc: int) | Waiting

  predicate NoneGood(os: seq<Outcome>) {
    forall i | 0 <= i < |os| :: !Good(os[i])
  }

  /** The first good outcome ends the command, unless the failures before it exceed the limit. */
  predicate Explains(v: Verdict, os: seq<Outcome>, paths: nat, limit: nat) {
    match v
    case Success(n) =>
      0 < n <= |os| && Good(os[n - 1]) && NoneGood(os[..n - 1]) && Failures(os[..n - 1], paths) <= limit
    case Failure(n, rc) =>
      0 < n <= |os| && NoneGood(os[..n]) && Failures(os[..n], paths) == limit + 1 && rc == os[n - 1].rc
    case Waiting =>
      NoneGood(os) && Failures(os, paths) <= limit
  }

  /** sandev_command(), given how each attempt ends. */
  method Command(os: seq<Outcome>, paths: nat, limit: nat) returns (v: Verdict)
    ensures Explains(v, os, paths, limit)
  {
    var retries, n := 0, 0;
    while true
      invariant n <= |os| && NoneGood(os[..n]) && retries == Failures(os[..n], paths) <= limit
      decreases |os| - n
    {
      if n == |os| {
        assert os[..n] == os;
        return Waiting;
      }
      var o := os[n];
      assert os[..n + 1][..n] == os[..n] && os[..n + 1][n] == o;
      n := n + 1;
      match o {
        case Unopened(_) =>
          if paths <= 1 {
            retries := retries + 1;
          }
        case Unstarted(_) =>
          retries := retries + 1;
        case Completed(status) =>
          if status == 0 {
            return Success(n);
          }
          retries := retries + 1;
      }
      if retries > limit {
        return Failure(n, o.rc);
      }
    }
  }

  /** On a single-path device every attempt that does not succeed counts. */
  lemma {:induction false} EachCounts(os: seq<Outcome>, paths: nat)
    requires paths <= 1 && NoneGood(os)
    ensures Failures(os, paths) == |os|
  {
    if os != [] {
      EachCounts(os[..|os| - 1], paths);
    }
  }

  /** A command on a single-path device makes at most one attempt more than the number of retries. */
  lemma SinglePath(v: Verdict, os: seq<Outcome>, paths: nat, limit: nat)
    requires paths <= 1 && Explains(v, os, paths, limit)
    ensures v.Success? ==> v.attempts <= limit + 1
    ensures v.Failure? ==> v.attempts == limit + 1
    ensures v.Waiting? ==> |os| <= limit
  {
    match v
    case Success(n) => EachCounts(os[..n - 1], paths);
    case Failure(n, _) => EachCounts(os[..n], paths);
    case Waiting => EachCounts(os, paths);
  }

  /** A multipath device that cannot be opened is retried for ever. */
  lemma NeverGivesUp(v: Verdict, os: seq<Outcome>, paths: nat, limit: nat)
    requires paths > 1 && Explains(v, os, paths, limit)
    requires forall i | 0 <= i < |os| :: os[i].Unopened?
    ensures v.Waiting?
  {
    if v.Failure? {
      NoneCounts(os[..v.attempts], paths);
    }
  }

  lemma {:induction false} NoneCounts(os: seq<Outcome>, paths: nat)
    requires paths > 1 && forall i | 0 <= i < |os| :: os[i].Unopened?
    ensures Failures(os, paths) == 0
  {
    if os != [] {
      NoneCounts(os[..|os| - 1], paths);
    }
  }

  // Paths.

  /** The paths of a device by state, the active one, and the status of each. */
  datatype Paths = Paths(connected: seq<nat>, closed: seq<nat>, active: Option<nat>, status: seq<int>)

  /** Every path is in exactly one list, once, and the active path is open. */
  predicate Inv(d: Paths) {
    && Distinct(d.connected) && Distinct(d.closed)
    && (forall p | 0 <= p < |d.status| :: p in d.connected <==> p !in d.closed)
    && (forall p | p in d.connected :: p < |d.status|) && (forall p | p in d.closed :: p < |d.status|)
    && (d.active.Some? ==> d.active.value in d.connected)
  }

  const EINPROGRESS := -115
  const ENOTCONN := -107
  const ECONNRESET := -104
  const ENODEV := -19

  /** sanpath_open(), when the connection can be started. */
  function Open(d: Paths, p: nat): (r: Paths)
    requires Inv(d) && p in d.closed
    ensures Inv(r)
  {
    RemoveMembers(d.closed, p);
    AppendDistinct(d.connected, p);
    d.(connected := d.connected + [p], closed := Remove(d.closed, p), status := d.status[p := EINPROGRESS])
  }

  /** sanpath_close() */
  function Close(d: Paths, p: nat, rc: int): (r: Paths)
    requires Inv(d) && p in d.connected
    ensures Inv(r) && r.closed == d.closed + [p] && r.connected == Remove(d.connected, p)
  {
    RemoveMembers(d.connected, p);
    AppendDistinct(d.closed, p);
    Paths(Remove(d.connected, p), d.closed + [p], if d.active == Some(p) then None else d.active, d.status[p := rc])
  }

  /** What can happen to an open path: its peer closes it, or it is polled and may be ready. */
  datatype Event = Closed(p: nat, rc: int) | Polled(p: nat, ready: bool)

  predicate Possible(d: Paths, e: Event) {
    e.p in d.connected
  }

  /** sanpath_block_close() and sanpath_step() */
  function React(d: Paths, e: Event): (r: Paths)
    requires Inv(d) && Possible(d, e)
    ensures Inv(r)
  {
    match e
    case Closed(p, rc) => Close(d, p, if rc == 0 then ENOTCONN else rc)
    case Polled(p, ready) =>
      if d.active == Some(p) || !ready then d
      else
        var s := d.(status := d.status[p := 0]);
        if d.active.None? then s.(active := Some(p)) else Close(s, p, 0)
  }

  /** The loop of sandev_restart(): close the first open path until there is none. */
  function CloseAll(d: Paths, rc: int): (r: Paths)
    requires Inv(d)
    ensures Inv(r) && r.connected == [] && r.active.None? && |r.status| == |d.status|
    decreases |d.connected|
  {
    if d.connected == [] then d else CloseAll(Close(d, d.connected[0], rc), rc)
  }

  lemma MoveFirst(s: seq<nat>, t: seq<nat>)
    requires t != []
    ensures (s + [t[0]]) + t[1..] == s + t
  {
  }

  /** Restarting leaves every path closed, those that were open after the others and in order. */
  lemma {:induction false} CloseAllOrder(d: Paths, rc: int)
    requires Inv(d)
    ensures CloseAll(d, rc).closed == d.closed + d.connected
    decreases |d.connected|
  {
    if d.connected != [] {
      var p := d.connected[0];
      assert Remove(d.connected, p) == d.connected[1..];
      CloseAllOrder(Close(d, p, rc), rc);
      MoveFirst(d.closed, d.connected);
    } else {
      assert d.closed + [] == d.closed;
    }
  }

  /** Opening the closed paths in turn, until one cannot be opened: `results` are the results of opening. */
  function OpenAll(d: Paths, results: nat -> int): (r: (Paths, int))
    requires Inv(d)
    ensures Inv(r.0) && (r.1 == 0 ==> r.0.closed == []) && |r.0.status| == |d.status| && r.0.active == d.active
    decreases |d.closed|
  {
    if d.closed == [] then (d, 0)
    else
      var p := d.closed[0];
      if results(p) != 0 then (d, results(p))
      else
        assert Remove(d.closed, p) == d.closed[1..];
        OpenAll(Open(d, p), results)
  }

  /** The events of one step() are possible where they happen. */
  predicate AllPossible(d: Paths, es: seq<Event>)
    decreases |es|
  {
    es == [] || (Inv(d) && Possible(d, es[0]) && AllPossible(React(d, es[0]), es[1..]))
  }

  /** What one step() does, which may deliver any number of events. */
  function ReactAll(d: Paths, es: seq<Event>): (r: Paths)
    requires Inv(d) && AllPossible(d, es)
    ensures Inv(r)
    decreases |es|
  {
    if es == [] then d else ReactAll(React(d, es[0]), es[1..])
  }

  predicate StepsPossible(d: Paths, steps: seq<seq<Event>>)
    decreases |steps|
  {
    steps == [] || (Inv(d) && AllPossible(d, steps[0]) && StepsPossible(ReactAll(d, steps[0]), steps[1..]))
  }

  /** The status of the first path in the list of closed ones. */
  function FirstStatus(d: Paths): int
    requires Inv(d)
  {
    if d.closed == [] then ENODEV else
      assert d.closed[0] in d.closed;
      d.status[d.closed[0]]
  }

  /** How waiting for a path ends: one is active, all are closed, or it has not ended yet. */
  datatype Wait = Active(p: nat) | AllClosed(rc: int) | Still

  /** The waiting loop of sandev_reopen(), which looks at the paths after each step(). */
  function Await(d: Paths, steps: seq<seq<Event>>): (r: (Paths, Wait))
    requires Inv(d) && d.active.None? && StepsPossible(d, steps)
    ensures Inv(r.0)
    ensures r.1.Active? ==> r.0.active == Some(r.1.p) && r.1.p in r.0.connected
    ensures r.1.AllClosed? ==> r.0.connected == [] && r.0.active.None? && r.1.rc == FirstStatus(r.0)
    ensures r.1.Still? ==> r.0.active.None?
    decreases |steps|
  {
    if steps == [] then (d, Still)
    else
      var n := ReactAll(d, steps[0]);
      if n.connected == [] then (n, AllClosed(FirstStatus(n)))
      else if n.active.Some? then (n, Active(n.active.value))
      else Await(n, steps[1..])
  }

  // Which path the result of a failed wait comes from.

  /** Paths are added to the list of closed ones as they close, and keep their status there. */
  lemma {:induction false} ClosedStay(d: Paths, es: seq<Event>)
    requires Inv(d) && AllPossible(d, es)
    ensures d.closed <= ReactAll(d, es).closed
    ensures d.closed != [] ==> FirstStatus(ReactAll(d, es)) == FirstStatus(d)
    decreases |es|
  {
    if es != [] {
      var n := React(d, es[0]);
      assert d.closed <= n.closed;
      ClosedStay(n, es[1..]);
      if d.closed != [] {
        assert d.closed[0] in d.closed && d.closed[0] < |d.status|;
        assert es[0].p in d.connected;
        assert FirstStatus(n) == FirstStatus(d);
      }
    }
  }

  /** The path whose status is reported when all have closed is the first that closed. */
  lemma {:induction false} FirstToClose(d: Paths, steps: seq<seq<Event>>)
    requires Inv(d) && d.active.None? && StepsPossible(d, steps)
    ensures d.closed <= Await(d, steps).0.closed
    ensures d.closed != [] && Await(d, steps).1.AllClosed? ==> Await(d, steps).1.rc == FirstStatus(d)
    decreases |steps|
  {
    if steps != [] {
      var n := ReactAll(d, steps[0]);
      ClosedStay(d, steps[0]);
      if n.active.None? && n.connected != [] {
        FirstToClose(n, steps[1..]);
      }
    }
  }

  /** Nothing happens that could close a path or make one active. */
  predicate Idle(es: seq<Event>) {
    es == [] || (es[0].Polled? && !es[0].ready && Idle(es[1..]))
  }

  /** The first path to close is one found available while another, different one is already active. */
  predicate SpareFirst(es: seq<Event>, active: Option<nat>) {
    if es == [] || es[0].Closed? then false
    else if !es[0].ready || active == Some(es[0].p) then SpareFirst(es[1..], active)
    else active.Some? || SpareFirst(es[1..], Some(es[0].p))
  }

  /** The same over all steps: it then happens in the first step in which anything happens. */
  predicate SpareFirstIn(steps: seq<seq<Event>>) {
    steps != [] && if Idle(steps[0]) then SpareFirstIn(steps[1..]) else SpareFirst(steps[0], None)
  }

  /** Within a step, as long as no path has closed: what the first to close reports. */
  lemma {:induction false} FirstReports(d: Paths, es: seq<Event>)
    requires Inv(d) && d.closed == [] && AllPossible(d, es)
    ensures var n := ReactAll(d, es);
            && (n.closed != [] ==> (FirstStatus(n) == 0 <==> SpareFirst(es, d.active)))
            && (n.closed == [] && d.active.Some? ==> n.active.Some?)
            && (n.closed == [] && n.active.None? ==> Idle(es) && n == d)
            && (n.closed != [] ==> d.active.Some? || !Idle(es))
    decreases |es|
  {
    if es != [] {
      var n := React(d, es[0]);
      if n.closed == [] {
        FirstReports(n, es[1..]);
      } else {
        ClosedStay(n, es[1..]);
        assert n.closed == [es[0].p];
      }
    }
  }

  /** Without paths nothing happens. */
  lemma {:induction false} NoPaths(d: Paths, steps: seq<seq<Event>>)
    requires Inv(d) && d.connected == [] && StepsPossible(d, steps)
    ensures !SpareFirstIn(steps)
    decreases |steps|
  {
    if steps != [] {
      NoPaths(d, steps[1..]);
    }
  }

  /** When all paths have closed, the result is zero if and only if the first to close was a spare. */
  lemma {:induction false} AllClosedExact(d: Paths, steps: seq<seq<Event>>)
    requires Inv(d) && d.active.None? && d.closed == [] && StepsPossible(d, steps)
    ensures Await(d, steps).1.AllClosed? ==> (Await(d, steps).1.rc == 0 <==> SpareFirstIn(steps))
    decreases |steps|
  {
    if d.connected == [] {
      NoPaths(d, steps);
    } else if steps != [] {
      var n := ReactAll(d, steps[0]);
      FirstReports(d, steps[0]);
      if n.closed == [] && n.active.None? {
        AllClosedExact(d, steps[1..]);
      } else if n.active.None? && n.connected != [] {
        FirstToClose(n, steps[1..]);
      }
    }
  }

  /** When each step() delivers at most one event, no spare is the first to close. */
  lemma {:induction false} OneAtATime(steps: seq<seq<Event>>)
    requires forall k | 0 <= k < |steps| :: |steps[k]| <= 1
    ensures !SpareFirstIn(steps)
  {
    if steps != [] {
      OneAtATime(steps[1..]);
      var es := steps[0];
      assert es == [] || es == [es[0]];
      assert !SpareFirst(es, None);
    }
  }

  lemma EventThen(d: Paths, e: Event, es: seq<Event>)
    requires Inv(d) && Possible(d, e) && AllPossible(React(d, e), es)
    ensures AllPossible(d, [e] + es) && ReactAll(d, [e] + es) == ReactAll(React(d, e), es)
  {
    assert ([e] + es)[1..] == es;
  }

  lemma ThreeEvents(d: Paths, e0: Event, e1: Event, e2: Event)
    requires Inv(d) && Possible(d, e0) && Possible(React(d, e0), e1) && Possible(React(React(d, e0), e1), e2)
    ensures AllPossible(d, [e0, e1, e2])
    ensures ReactAll(d, [e0, e1, e2]) == React(React(React(d, e0), e1), e2)
  {
    var d1 := React(d, e0);
    var d2 := React(d1, e1);
    EventThen(d2, e2, []);
    assert [e2] + [] == [e2] && [e1] + [e2] == [e1, e2] && [e0] + [e1, e2] == [e0, e1, e2];
    EventThen(d1, e1, [e2]);
    EventThen(d, e0, [e1, e2]);
  }

  /** Two open paths: both become available, and then the active one fails. */
  lemma SpareThenFailure(d: Paths, e0: Event, e1: Event, e2: Event)
    requires d == Paths([0, 1], [], None, [EINPROGRESS, EINPROGRESS])
    requires e0 == Polled(0, true) && e1 == Polled(1, true) && e2 == Closed(0, -5)
    ensures Inv(d) && Possible(d, e0) && Possible(React(d, e0), e1) && Possible(React(React(d, e0), e1), e2)
    ensures React(React(React(d, e0), e1), e2) == Paths([], [1, 0], None, [-5, 0])
  {
    assert [0, 1][1..] == [1] && [1][1..] == [];
    assert Distinct([1]) && Distinct([0, 1]);
    assert Remove([1], 1) == [];
    assert Remove([0, 1], 1) == [0];
  }

  /** When both happen in one step(), the wait reports success and leaves no path active. */
  lemma ZeroWithoutPath()
    ensures var d := Paths([0, 1], [], None, [EINPROGRESS, EINPROGRESS]);
            var steps := [[Polled(0, true), Polled(1, true), Closed(0, -5)]];
            && Inv(d) && StepsPossible(d, steps) && Await(d, steps).1 == AllClosed(0)
  {
    var d := Paths([0, 1], [], None, [EINPROGRESS, EINPROGRESS]);
    var e0, e1, e2 := Polled(0, true), Polled(1, true), Closed(0, -5);
    SpareThenFailure(d, e0, e1, e2);
    ThreeEvents(d, e0, e1, e2);
    var steps := [[e0, e1, e2]];
    assert steps[0] == [e0, e1, e2] && steps[1..] == [];
  }

  class Device {
    var connected: seq<nat>
    var closed: seq<nat>
    var active: Option<nat>
    var status: seq<int>

    function State(): Paths
      reads this
    {
      Paths(connected, closed, active, status)
    }

    constructor (paths: nat)
      ensures State() == Paths([], seq(paths, i => i), None, seq(paths, _ => 0))
    {
      connected, closed, active, status := [], seq(paths, i => i), None, seq(paths, _ => 0);
    }

    /** sanpath_open() */
    method OpenPath(p: nat, result: int) returns (rc: int)
      requires Inv(State()) && p in closed
      modifies this
      ensures rc == result
      ensures State() == if result == 0 then Open(old(State()), p) else old(State())
    {
      rc := result;
      if rc == 0 {
        closed := Remove(closed, p);
        connected := connected + [p];
        status := status[p := EINPROGRESS];
      }
    }

    /** sanpath_close() */
    method ClosePath(p: nat, rc: int)
      requires Inv(State()) && p in connected
      modifies this
      ensures State() == Close(old(State()), p, rc)
    {
      status := status[p := rc];
      connected := Remove(connected, p);
      closed := closed + [p];
      if active == Some(p) {
        active := None;
      }
    }

    /** sandev_restart() */
    method Restart(rc: int)
      requires Inv(State())
      modifies this
      ensures State() == CloseAll(old(State()), rc)
    {
      while connected != []
        invariant Inv(State()) && CloseAll(State(), rc) == CloseAll(old(State()), rc)
        decreases |connected|
      {
        ClosePath(connected[0], rc);
      }
      active := None;
    }

    /** An event reaches the device while step() runs. */
    method Handle(e: Event)
      requires Inv(State()) && Possible(State(), e)
      modifies this
      ensures State() == React(old(State()), e)
    {
      match e {
        case Closed(p, rc) =>
          ClosePath(p, if rc == 0 then ENOTCONN else rc);
        case Polled(p, ready) =>
          if active == Some(p) || !ready {
            return;
          }
          status := status[p := 0];
          if active.None? {
            active := Some(p);
          } else {
            ClosePath(p, 0);
          }
      }
    }

    /** The opening loop of sandev_reopen(). */
    method OpenClosed(results: nat -> int) returns (rc: int)
      requires Inv(State())
      modifies this
      ensures (State(), rc) == OpenAll(old(State()), results)
    {
      ghost var d := State();
      while closed != []
        invariant Inv(State()) && OpenAll(State(), results) == OpenAll(d, results)
        decreases |closed|
      {
        var p := closed[0];
        assert Remove(closed, p) == closed[1..];
        rc := OpenPath(p, results(p));
        if rc != 0 {
          return;
        }
      }
      rc := 0;
    }

    /** One step(). */
    method StepOnce(es: seq<Event>)
      requires Inv(State()) && AllPossible(State(), es)
      modifies this
      ensures State() == ReactAll(old(State()), es)
    {
      ghost var d := State();
      for i := 0 to |es|
        invariant Inv(State()) && AllPossible(State(), es[i..])
        invariant ReactAll(State(), es[i..]) == ReactAll(d, es)
      {
        assert es[i..][0] == es[i] && es[i..][1..] == es[i + 1..];
        Handle(es[i]);
      }
    }

    /** The waiting loop of sandev_reopen(). */
    method AwaitActive(steps: seq<seq<Event>>) returns (end: Wait)
      requires Inv(State()) && active.None? && StepsPossible(State(), steps)
      modifies this
      ensures (State(), end) == Await(old(State()), steps)
    {
      ghost var d := State();
      var i := 0;
      while active.None?
        invariant i <= |steps| && Inv(State()) && StepsPossible(State(), steps[i..])
        invariant active.None? ==> Await(State(), steps[i..]) == Await(d, steps)
        invariant active.Some? ==> (State(), Active(active.value)) == Await(d, steps)
        decreases |steps| - i
      {
        if i == |steps| {
          return Still;
        }
        assert steps[i..][0] == steps[i] && steps[i..][1..] == steps[i + 1..];
        StepOnce(steps[i]);
        i := i + 1;
        if connected == [] {
          return AllClosed(FirstStatus(State()));
        }
      }
      end := Active(active.value);
    }

    /**
      sandev_reopen(): `results` are the results of opening each path, `steps` what
      happens in each step() while it waits. An error leaves every path closed; a result
      of zero means that an open path is active, or that the first path to close was a spare.
     */
    method Reopen(results: nat -> int, steps: seq<seq<Event>>) returns (rc: Option<int>)
      requires Inv(State())
      requires var (d, failed) := OpenAll(CloseAll(State(), ECONNRESET), results); failed == 0 ==> StepsPossible(d, steps)
      modifies this
      ensures Inv(State())
      ensures rc.None? ==> active.None?
      ensures var (_, failed) := OpenAll(CloseAll(old(State()), ECONNRESET), results);
              if failed != 0 then rc == Some(failed)
              else rc.Some? ==> (rc.value == 0 <==> active.Some? || SpareFirstIn(steps))
      ensures active.Some? ==> active.value in connected
      ensures rc.Some? && active.None? ==> connected == []
      ensures rc.Some? && rc.value != 0 ==> connected == [] && active.None?
    {
      Restart(ECONNRESET);
      var failed := OpenClosed(results);
      if failed != 0 {
        Restart(failed);
        return Some(failed);
      }
      AllClosedExact(State(), steps);
      var end := AwaitActive(steps);
      match end {
        case Still =>
          rc := None;
        case Active(_) =>
          rc := Some(0);
        case AllClosed(first) =>
          Restart(first);
          rc := Some(first);
      }
    }
  }
}
