// The scheduler's ring of ready tasks as a value: pids in `next` order from
// `first`, the position of `actual`, and the ticks it has left. Every other
// task has a full quantum.
module RunRing {
  import opened Common

  type Pid = nat

  const QUANTUM: nat := 10     // SCHED_QUANTUM_DEFAULT
  const IDLE: Pid := 0

  datatype Ring = Ring(pids: seq<Pid>, at: Option<nat>, quantum: nat) {
    // `actual` is in the ring; with no `actual` there is nothing left to spend.
    predicate Valid() {
      && (at.Some? ==> at.value < |pids| && quantum <= QUANTUM)
      && (at.None? ==> quantum == 0)
      && IDLE !in pids
      && forall i, j {:trigger Apart(i, j)} :: 0 <= i < j < |pids| ==> Apart(i, j)
    }

    predicate Apart(i: int, j: int) {
      0 <= i < j < |pids| ==> pids[i] != pids[j]
    }

    // The pid that the scheduler answers with.
    function Running(): Pid
      requires Valid()
    {
      if at.None? then IDLE else pids[at.value]
    }

    // sched_load
    function Load(p: Pid): (r: Ring)
      requires Valid() && p !in pids && p != IDLE
      ensures r.Valid() && r.Running() == Running()
    {
      var r := this.(pids := pids + [p]);
      assert forall i, j {:trigger r.Apart(i, j)} :: Apart(i, j) ==> r.Apart(i, j);
      r
    }

    // sched_exit: `actual` leaves and its successor takes over.
    function Exit(): (r: Ring)
      requires Valid() && at.Some?
      ensures r.Valid()
    {
      var i := at.value;
      var rest := pids[..i] + pids[i + 1..];
      var r := if rest == [] then Ring([], None, 0) else Ring(rest, Some(if i < |rest| then i else 0), QUANTUM);
      assert forall a, b {:trigger r.Apart(a, b)} :: Apart(if a < i then a else a + 1, if b < i then b else b + 1) ==> r.Apart(a, b);
      r
    }

    // sched_tick
    function Tick(): (r: Ring)
      requires Valid()
      ensures r.Valid() && r.pids == pids
    {
      var r :=
        if at.None? then (if pids == [] then this else Ring(pids, Some(0), QUANTUM))
        else if quantum > 0 then this.(quantum := quantum - 1)
        else Ring(pids, Some(if at.value + 1 < |pids| then at.value + 1 else 0), QUANTUM);
      assert forall i, j {:trigger r.Apart(i, j)} :: Apart(i, j) ==> r.Apart(i, j);
      r
    }

    // How many tasks come before p does, counting `actual`.
    ghost function Distance(p: Pid): nat
      requires Valid() && p in pids
    {
      var k := IndexOf(p);
      if at.None? then k + 1
      else if k >= at.value then k - at.value
      else k + |pids| - at.value
    }

    ghost function IndexOf(p: Pid): (k: nat)
      requires p in pids
      ensures k < |pids| && pids[k] == p
    {
      var k :| 0 <= k < |pids| && pids[k] == p;
      k
    }

    /** The ticks after which p runs, if nobody is loaded meanwhile and nobody
        leaves early: what `actual` has left, then a quantum and the tick that
        ends it for each task in between. */
    ghost function Potential(p: Pid): nat
      requires Valid() && p in pids
    {
      var d := Distance(p);
      if d == 0 then 0 else quantum + 1 + (QUANTUM + 1) * (d - 1)
    }

    predicate Waiting(p: Pid)
      requires Valid()
    {
      p in pids && Running() != p
    }
  }

  // --- bounded waiting ----------------------------------------------------------------

  datatype Event = TickEvent | ExitEvent | LoadEvent(p: Pid)

  predicate Enabled(r: Ring, e: Event) {
    r.Valid() &&
    match e
    case TickEvent => true
    case ExitEvent => r.at.Some?
    case LoadEvent(p) => p !in r.pids && p != IDLE
  }

  function Next(r: Ring, e: Event): (r': Ring)
    requires Enabled(r, e)
    ensures r'.Valid()
  {
    match e
    case TickEvent => r.Tick()
    case ExitEvent => r.Exit()
    case LoadEvent(p) => r.Load(p)
  }

  lemma PositionIsUnique(r: Ring, p: Pid, k: nat)
    requires r.Valid() && k < |r.pids| && r.pids[k] == p
    ensures r.IndexOf(p) == k
  {
    var i := r.IndexOf(p);
    assert r.Apart(i, k) && r.Apart(k, i);
  }

  // What one event costs a waiting task.
  function Charge(e: Event): int {
    match e
    case TickEvent => -1
    case ExitEvent => 0
    case LoadEvent(_) => QUANTUM + 1
  }

  lemma PotentialStep(r: Ring, e: Event, p: Pid)
    requires Enabled(r, e) && r.Waiting(p) && p in Next(r, e).pids
    ensures Next(r, e).Potential(p) <= r.Potential(p) + Charge(e)
    ensures e.TickEvent? ==> Next(r, e).Potential(p) == r.Potential(p) - 1
    ensures r.Potential(p) > 0
    ensures Next(r, e).Potential(p) == 0 <==> Next(r, e).Running() == p
  {
    var r', k := Next(r, e), r.IndexOf(p);
    if r'.Running() == p {
      PositionIsUnique(r', p, r'.at.value);
    }
    match e
    case TickEvent =>
      PositionIsUnique(r', p, k);
    case LoadEvent(_) =>
      PositionIsUnique(r', p, k);
    case ExitEvent =>
      PositionIsUnique(r', p, if k < r.at.value then k else k - 1);
  }

  // The states that a sequence of events passes through.
  ghost predicate Run(rs: seq<Ring>, es: seq<Event>) {
    && |rs| == |es| + 1
    && forall i :: 0 <= i < |es| ==> Enabled(rs[i], es[i]) && rs[i + 1] == Next(rs[i], es[i])
  }

  // Ticks and loads among the first n events.
  ghost function Ticks(es: seq<Event>, n: nat): nat
    requires n <= |es|
  {
    if n == 0 then 0 else Ticks(es, n - 1) + if es[n - 1].TickEvent? then 1 else 0
  }

  ghost function Loads(es: seq<Event>, n: nat): nat
    requires n <= |es|
  {
    if n == 0 then 0 else Loads(es, n - 1) + if es[n - 1].LoadEvent? then 1 else 0
  }

  ghost predicate WaitingThroughout(rs: seq<Ring>, p: Pid) {
    forall i {:trigger rs[i]} :: 0 <= i < |rs| ==> rs[i].Valid() && rs[i].Waiting(p)
  }

  /** Bounded waiting: a ready task that has not run yet has seen fewer ticks
      than its first potential plus one round's share for every task loaded since. */
  lemma {:induction false} BoundedWaiting(rs: seq<Ring>, es: seq<Event>, p: Pid, n: nat)
    requires Run(rs, es) && WaitingThroughout(rs, p) && n <= |es|
    ensures rs[n].Potential(p) + Ticks(es, n) <= rs[0].Potential(p) + (QUANTUM + 1) * Loads(es, n)
    ensures Ticks(es, n) < rs[0].Potential(p) + (QUANTUM + 1) * Loads(es, n)
  {
    PotentialStep(rs[n], TickEvent, p);
    if n > 0 {
      BoundedWaiting(rs, es, p, n - 1);
      PotentialStep(rs[n - 1], es[n - 1], p);
    }
  }

  // --- who runs next --------------------------------------------------------------------

  /** When `actual` leaves, everybody else moves up by one place, and whoever is
      next then has a full quantum. */
  lemma ExitAdvances(r: Ring, p: Pid)
    requires r.Valid() && r.at.Some?
    ensures p in r.Exit().pids <==> p in r.pids && p != r.Running()
    ensures r.Waiting(p) ==> r.Exit().Potential(p) == 11 * (r.Distance(p) - 1)
  {
    var i, r' := r.at.value, r.Exit();
    if p in r.pids {
      var k := r.IndexOf(p);
      if k == i {
        forall j | 0 <= j < |r'.pids| ensures r'.pids[j] != p {
          assert r.Apart(j, i) && r.Apart(i, j + 1);
        }
      } else {
        assert r.Apart(k, i) && r.Apart(i, k);
        assert r'.pids[if k < i then k else k - 1] == p;
        PositionIsUnique(r', p, if k < i then k else k - 1);
      }
    }
  }

  /** Who is loaded goes right behind the one loaded last, and only those behind it
      have to wait for one more; `actual` goes on. */
  lemma LoadedLast(r: Ring, p: Pid, q: Pid)
    requires r.Valid() && p !in r.pids && p != IDLE && q in r.pids
    ensures var r', last := r.Load(p), r.pids[|r.pids| - 1];
            && r'.Running() == r.Running() && r'.quantum == r.quantum
            && p in r'.pids && last in r'.pids && q in r'.pids
            && r'.Distance(p) == r'.Distance(last) + 1
            && r'.Distance(q) == r.Distance(q) + if r'.Distance(q) > r'.Distance(p) then 1 else 0
  {
    var r', n := r.Load(p), |r.pids|;
    PositionIsUnique(r', p, n);
    PositionIsUnique(r', r.pids[n - 1], n - 1);
    PositionIsUnique(r', q, r.IndexOf(q));
  }

  // The ring after n ticks.
  function Ticked(r: Ring, n: nat): (r': Ring)
    requires r.Valid()
    ensures r'.Valid() && r'.pids == r.pids
  {
    if n == 0 then r else Ticked(r, n - 1).Tick()
  }

  lemma NextTurn(at: nat, n: nat, size: nat)
    requires size > 0
    ensures if n % 11 == 10 then
              (n + 1) % 11 == 0 && (at + (n + 1) / 11) % size == if (at + n / 11) % size + 1 < size then (at + n / 11) % size + 1 else 0
            else (n + 1) / 11 == n / 11 && (n + 1) % 11 == n % 11 + 1
  {
    var turn := (at + n / 11) % size;
    if n % 11 == 10 {
      assert (n + 1) / 11 == n / 11 + 1;
      ModNext(at + n / 11, 1, size);
      ModUnique(turn + 1, if turn + 1 < size then 0 else 1, if turn + 1 < size then turn + 1 else 0, size);
    }
  }

  /** Round robin: with nobody coming or leaving, each task in turn has the
      processor for eleven ticks, its ten and the one that passes it on. */
  lemma {:induction false} RoundRobin(r: Ring, n: nat)
    requires r.Valid() && r.at.Some? && r.quantum == 10
    ensures Ticked(r, n) == Ring(r.pids, Some((r.at.value + n / 11) % |r.pids|), 10 - n % 11)
  {
    if n == 0 {
      ModUnique(r.at.value, 0, r.at.value, |r.pids|);
    } else {
      RoundRobin(r, n - 1);
      NextTurn(r.at.value, n - 1, |r.pids|);
    }
  }

  // --- starvation ---------------------------------------------------------------------

  // Processes p and q take turns, and process 1 is behind whoever runs.
  function Turn(p: Pid, q: Pid): Ring {
    Ring([1, p, q], Some(1), QUANTUM)
  }

  // p runs for a tick and blocks; then q, which runs next, wakes it.
  lemma OneTurn(p: Pid, q: Pid)
    requires 1 < p && 1 < q && p != q
    ensures var r := Turn(p, q);
            && Enabled(r, TickEvent) && r.Waiting(1)
            && Enabled(r.Tick(), ExitEvent) && r.Tick().Waiting(1) && r.Tick().Running() == p
            && Enabled(r.Tick().Exit(), LoadEvent(p)) && r.Tick().Exit().Waiting(1)
            && r.Tick().Exit().Load(p) == Turn(q, p) && Turn(q, p).Waiting(1)
  {
    var r := Turn(p, q).Tick();
    assert r.pids[..1] + r.pids[2..] == [1, q];
    assert r.Exit() == Ring([1, q], Some(1), QUANTUM);
  }

  // There is a run of n ticks between the two rings, in which p only waits.
  ghost predicate Starves(p: Pid, from: Ring, to: Ring, n: nat) {
    var starves :=
      exists rs, es :: Run(rs, es) && WaitingThroughout(rs, p) && rs[0] == from && rs[|es|] == to && Ticks(es, |es|) == n;
    starves
  }

  lemma StarvesAtFirst(p: Pid, r: Ring)
    requires r.Valid() && r.Waiting(p)
    ensures Starves(p, r, r, 0)
  {
    var rs: seq<Ring>, es: seq<Event> := [r], [];
    assert Run(rs, es) && WaitingThroughout(rs, p) && rs[|es|] == r && Ticks(es, |es|) == 0;
  }

  lemma StarvesOn(p: Pid, from: Ring, r: Ring, e: Event, n: nat)
    requires Starves(p, from, r, n) && Enabled(r, e) && Next(r, e).Waiting(p)
    ensures Starves(p, from, Next(r, e), n + if e.TickEvent? then 1 else 0)
  {
    var rs, es :| Run(rs, es) && WaitingThroughout(rs, p) && rs[0] == from && rs[|es|] == r && Ticks(es, |es|) == n;
    var rs', es' := rs + [Next(r, e)], es + [e];
    RunOn(rs, es, e);
    TicksOf(es, [e], |es|);
    assert WaitingThroughout(rs', p) && rs'[0] == from && rs'[|es'|] == Next(r, e);
  }

  lemma RunOn(rs: seq<Ring>, es: seq<Event>, e: Event)
    requires Run(rs, es) && Enabled(rs[|es|], e)
    ensures Run(rs + [Next(rs[|es|], e)], es + [e])
  {
    var rs', es' := rs + [Next(rs[|es|], e)], es + [e];
    forall i | 0 <= i < |es'| ensures Enabled(rs'[i], es'[i]) && rs'[i + 1] == Next(rs'[i], es'[i]) {
      if i < |es| {
        assert Enabled(rs[i], es[i]) && rs'[i] == rs[i] && rs'[i + 1] == rs[i + 1];
      }
    }
  }

  lemma TicksOf(es: seq<Event>, more: seq<Event>, n: nat)
    requires n <= |es|
    ensures Ticks(es + more, n) == Ticks(es, n)
  {
  }

  lemma StarvesForATurn(from: Ring, p: Pid, q: Pid, n: nat, to: Ring, m: nat)
    requires Starves(1, from, Turn(p, q), n) && 1 < p && 1 < q && p != q && to == Turn(q, p) && m == n + 1
    ensures Starves(1, from, to, m)
  {
    OneTurn(p, q);
    var r := Turn(p, q);
    StarvesOn(1, from, r, TickEvent, n);
    StarvesOn(1, from, r.Tick(), ExitEvent, n + 1);
    StarvesOn(1, from, r.Tick().Exit(), LoadEvent(p), n + 1);
  }

  // Whose turn it is, and whose next, after n turns.
  function AfterTurns(p: Pid, q: Pid, n: nat): (r: (Pid, Pid))
    ensures r == (p, q) || r == (q, p)
  {
    if n == 0 then (p, q) else var r := AfterTurns(p, q, n - 1); (r.1, r.0)
  }

  /** Two processes that block and wake each other keep a third, ready all the
      time, from running for any number of ticks: there is no bound without
      the term for the loads. */
  lemma {:induction false} TwoStarveAThird(p: Pid, q: Pid, n: nat)
    requires 1 < p && 1 < q && p != q
    ensures var r := AfterTurns(p, q, n); Starves(1, Turn(p, q), Turn(r.0, r.1), n)
  {
    if n == 0 {
      OneTurn(p, q);
      StarvesAtFirst(1, Turn(p, q));
    } else {
      TwoStarveAThird(p, q, n - 1);
      var r := AfterTurns(p, q, n - 1);
      StarvesForATurn(Turn(p, q), r.0, r.1, n - 1, Turn(r.1, r.0), n);
    }
  }
}
