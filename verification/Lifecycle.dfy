// The life of processes as a state machine: the run ring, the wait queues of
// the devices and the delta queue of sleepers share the pids among them.
module Lifecycle {
  import opened Common
  import opened RunRing

  // --- the delta queue -------------------------------------------------------------

  // `time` counts from the wake-up of the sleeper before.
  datatype Sleeper = Sleeper(pid: Pid, time: nat)

  type Delta = seq<Sleeper>

  function PidsOf(s: Delta): seq<Pid> {
    if s == [] then [] else [s[0].pid] + PidsOf(s[1..])
  }

  // loader_sleep's walk: a sleeper goes before the ones that wake when it does.
  function Insert(s: Delta, p: Pid, t: nat): Delta {
    if s == [] then [Sleeper(p, t)]
    else if s[0].time < t then [s[0]] + Insert(s[1..], p, t - s[0].time)
    else [Sleeper(p, t), Sleeper(s[0].pid, s[0].time - t)] + s[1..]
  }

  // loader_tick: the head is closer by one; whoever has no time left is due.
  function Closer(s: Delta): Delta
    requires s != [] && s[0].time > 0
  {
    [Sleeper(s[0].pid, s[0].time - 1)] + s[1..]
  }

  function Due(s: Delta): seq<Pid> {
    if s == [] || s[0].time > 0 then [] else [s[0].pid] + Due(s[1..])
  }

  function NotDue(s: Delta): Delta {
    if s == [] || s[0].time > 0 then s else NotDue(s[1..])
  }

  // The ticks that remain until p wakes.
  function Remaining(s: Delta, p: Pid): nat
    requires p in PidsOf(s)
  {
    if s[0].pid == p then s[0].time else s[0].time + Remaining(s[1..], p)
  }

  predicate Distinct(s: Delta) {
    s == [] || (s[0].pid !in PidsOf(s[1..]) && Distinct(s[1..]))
  }

  lemma InsertAddsOne(s: Delta, p: Pid, t: nat)
    ensures multiset(PidsOf(Insert(s, p, t))) == multiset(PidsOf(s)) + multiset{p}
    ensures t > 0 && (s == [] || s[0].time > 0) ==> Insert(s, p, t)[0].time > 0
  {
    var was, now := multiset(PidsOf(s)), multiset(PidsOf(Insert(s, p, t)));
    forall q ensures now[q] == was[q] + multiset{p}[q] {
      InsertCounts(s, p, t, q);
    }
    assert now == was + multiset{p};
  }

  lemma {:induction false} InsertCounts(s: Delta, p: Pid, t: nat, q: Pid)
    ensures multiset(PidsOf(Insert(s, p, t)))[q] == multiset(PidsOf(s))[q] + if q == p then 1 else 0
  {
    var r := Insert(s, p, t);
    HeadCounts(r, q);
    if s != [] && s[0].time < t {
      HeadCounts(s, q);
      InsertCounts(s[1..], p, t - s[0].time, q);
      assert r[1..] == Insert(s[1..], p, t - s[0].time);
    } else if s != [] {
      assert r[1..] == [Sleeper(s[0].pid, s[0].time - t)] + s[1..];
      SamePidsCount(s, r[1..], q);
    }
  }

  lemma SamePidsCount(s: Delta, r: Delta, q: Pid)
    requires s != [] && r != [] && r[0].pid == s[0].pid && r[1..] == s[1..]
    ensures multiset(PidsOf(r))[q] == multiset(PidsOf(s))[q]
  {
    HeadCounts(s, q);
    HeadCounts(r, q);
  }

  lemma HeadCounts(s: Delta, q: Pid)
    requires s != []
    ensures multiset(PidsOf(s))[q] == multiset(PidsOf(s[1..]))[q] + if q == s[0].pid then 1 else 0
  {}

  // The new sleeper wakes in t ticks; every other wakes when it would have.
  lemma {:induction false} InsertKeepsDeadlines(s: Delta, p: Pid, t: nat, q: Pid)
    requires p !in PidsOf(s) && (q == p || q in PidsOf(s))
    ensures q in PidsOf(Insert(s, p, t))
    ensures Remaining(Insert(s, p, t), q) == if q == p then t else Remaining(s, q)
  {
    if s != [] {
      if s[0].time < t {
        assert Insert(s, p, t)[1..] == Insert(s[1..], p, t - s[0].time);
        if q != s[0].pid {
          InsertKeepsDeadlines(s[1..], p, t - s[0].time, q);
        }
      } else {
        var rest := [Sleeper(s[0].pid, s[0].time - t)] + s[1..];
        assert Insert(s, p, t)[1..] == rest && rest[1..] == s[1..];
      }
    }
  }

  // A sleeper is due when nothing remains; the others are not touched.
  lemma {:induction false} DueExactly(s: Delta, p: Pid)
    requires Distinct(s)
    ensures p in Due(s) <==> p in PidsOf(s) && Remaining(s, p) == 0
    ensures p in PidsOf(NotDue(s)) <==> p in PidsOf(s) && Remaining(s, p) > 0
    ensures p in PidsOf(NotDue(s)) ==> Remaining(NotDue(s), p) == Remaining(s, p)
  {
    if s != [] {
      DueExactly(s[1..], p);
    }
  }

  lemma {:induction false} DueAndNotDue(s: Delta)
    ensures multiset(PidsOf(s)) == multiset(Due(s)) + multiset(PidsOf(NotDue(s)))
    ensures NotDue(s) != [] ==> NotDue(s)[0].time > 0
  {
    if s != [] && s[0].time == 0 {
      DueAndNotDue(s[1..]);
    }
  }

  lemma CloserByOne(s: Delta, p: Pid)
    requires s != [] && s[0].time > 0 && Distinct(s)
    ensures PidsOf(Closer(s)) == PidsOf(s) && Distinct(Closer(s))
    ensures p in PidsOf(s) ==> Remaining(Closer(s), p) == Remaining(s, p) - 1
  {
    assert Closer(s)[1..] == s[1..];
  }

  // --- all processes ------------------------------------------------------------------

  // `queues` are the wait queues of all devices and semaphores.
  datatype Life = Life(ring: Ring, queues: seq<seq<Pid>>, sleepers: Delta, live: set<Pid>)

  datatype Event = Spawn(p: Pid) | Block(q: nat) | Wake(q: nat) | Sleep(t: nat) | Tick | Exit

  function Flatten(queues: seq<seq<Pid>>): seq<Pid> {
    if queues == [] then [] else queues[0] + Flatten(queues[1..])
  }

  // Every place a pid is in, counted.
  function Members(l: Life): multiset<Pid> {
    multiset(l.ring.pids) + multiset(Flatten(l.queues)) + multiset(PidsOf(l.sleepers))
  }

  // Each live process but the idle one is in exactly one place, once.
  ghost predicate Inv(l: Life) {
    && l.ring.Valid()
    && IDLE in l.live && Members(l) == multiset(l.live - {IDLE})
    && (l.sleepers != [] ==> l.sleepers[0].time > 0)
  }

  predicate Enabled(l: Life, e: Event) {
    l.ring.Valid() &&
    match e
    case Spawn(p) => p !in l.live
    case Block(q) => q < |l.queues| && l.ring.at.Some?
    case Wake(q) => q < |l.queues|
    case Sleep(t) => l.ring.at.Some?
    case Tick => l.sleepers != [] ==> l.sleepers[0].time > 0
    case Exit => l.ring.at.Some?
  }

  // Woken processes join the ring one after the other.
  function LoadAll(r: Ring, ps: seq<Pid>): Ring {
    r.(pids := r.pids + ps)
  }

  function Next(l: Life, e: Event): Life
    requires Enabled(l, e)
  {
    match e
    case Spawn(p) => l.(ring := LoadAll(l.ring, [p]), live := l.live + {p})
    case Block(q) => l.(ring := l.ring.Exit(), queues := l.queues[q := l.queues[q] + [l.ring.Running()]])
    case Wake(q) =>
      if l.queues[q] == [] then l
      else l.(ring := LoadAll(l.ring, [l.queues[q][0]]), queues := l.queues[q := l.queues[q][1..]])
    case Sleep(t) =>
      if t == 0 then l else l.(ring := l.ring.Exit(), sleepers := Insert(l.sleepers, l.ring.Running(), t))
    case Tick => RingTick(SleepersTick(l))
    case Exit => l.(ring := l.ring.Exit(), live := l.live - {l.ring.Running()})
  }

  // loader_tick, then sched_tick, as the timer interrupt calls them.
  function SleepersTick(l: Life): Life
    requires l.sleepers != [] ==> l.sleepers[0].time > 0
  {
    if l.sleepers == [] then l
    else l.(ring := LoadAll(l.ring, Due(Closer(l.sleepers))), sleepers := NotDue(Closer(l.sleepers)))
  }

  function RingTick(l: Life): Life {
    if l.ring.Valid() then l.(ring := l.ring.Tick()) else l
  }

  lemma {:induction false} FlattenUpdate(queues: seq<seq<Pid>>, q: nat, s: seq<Pid>, p: Pid)
    requires q < |queues|
    ensures multiset(Flatten(queues[q := s]))[p] + multiset(queues[q])[p] == multiset(Flatten(queues))[p] + multiset(s)[p]
  {
    var queues' := queues[q := s];
    assert Flatten(queues') == queues'[0] + Flatten(queues'[1..]);
    assert Flatten(queues) == queues[0] + Flatten(queues[1..]);
    if q == 0 {
      assert queues'[1..] == queues[1..];
    } else {
      assert queues'[1..] == queues[1..][q - 1 := s];
      FlattenUpdate(queues[1..], q - 1, s, p);
    }
  }

  // A process counted once among the members is in the ring at most once.
  lemma RingIsSet(l: Life)
    requires Members(l) == multiset(l.live - {IDLE})
    ensures IDLE !in l.ring.pids
    ensures forall i, j :: 0 <= i < j < |l.ring.pids| ==> l.ring.pids[i] != l.ring.pids[j]
  {
    assert forall p :: Members(l)[p] <= 1;
    assert forall p :: multiset(l.ring.pids)[p] <= Members(l)[p];
    assert IDLE !in Members(l);
    NoRepeats(l.ring.pids);
  }

  lemma NoRepeats(s: seq<Pid>)
    requires forall p :: multiset(s)[p] <= 1
    ensures forall i, j :: 0 <= i < j < |s| ==> s[i] != s[j]
  {
    forall i, j | 0 <= i < j < |s| ensures s[i] != s[j] {
      if s[i] == s[j] {
        RepeatCounts(s, i, j);
      }
    }
  }

  lemma RepeatCounts(s: seq<Pid>, i: nat, j: nat)
    requires i < j < |s| && s[i] == s[j]
    ensures multiset(s)[s[i]] >= 2
  {
    assert s == s[..i] + [s[i]] + s[i + 1..j] + [s[j]] + s[j + 1..];
  }

  lemma ExitRemoves(r: Ring)
    requires r.Valid() && r.at.Some?
    ensures multiset(r.Exit().pids) + multiset{r.Running()} == multiset(r.pids)
  {
    var i := r.at.value;
    assert r.pids == r.pids[..i] + [r.pids[i]] + r.pids[i + 1..];
  }

  lemma SpawnKeepsInv(l: Life, p: Pid)
    requires Inv(l) && Enabled(l, Spawn(p))
    ensures Inv(Next(l, Spawn(p)))
  {
    var l' := Next(l, Spawn(p));
    assert l'.live - {IDLE} == l.live - {IDLE} + {p};
    assert Members(l') == Members(l) + multiset{p};
    RingIsSet(l');
  }

  lemma BlockKeepsInv(l: Life, q: nat)
    requires Inv(l) && Enabled(l, Block(q))
    ensures Inv(Next(l, Block(q)))
  {
    ExitRemoves(l.ring);
    forall p ensures Members(Next(l, Block(q)))[p] == Members(l)[p] {
      FlattenUpdate(l.queues, q, l.queues[q] + [l.ring.Running()], p);
    }
  }

  lemma WakeMoves(l: Life, q: nat, p: Pid)
    requires Enabled(l, Wake(q)) && l.queues[q] != []
    ensures Members(Next(l, Wake(q)))[p] == Members(l)[p]
  {
    var queue := l.queues[q];
    assert queue == [queue[0]] + queue[1..];
    FlattenUpdate(l.queues, q, queue[1..], p);
  }

  lemma WakeKeepsInv(l: Life, q: nat)
    requires Inv(l) && Enabled(l, Wake(q))
    ensures Inv(Next(l, Wake(q)))
  {
    if l.queues[q] != [] {
      var l' := Next(l, Wake(q));
      forall p ensures Members(l')[p] == Members(l)[p] {
        WakeMoves(l, q, p);
      }
      RingIsSet(l');
    }
  }

  lemma SleepMoves(l: Life, t: nat, p: Pid)
    requires Enabled(l, Sleep(t)) && t > 0
    ensures Members(Next(l, Sleep(t)))[p] == Members(l)[p]
  {
    ExitRemoves(l.ring);
    InsertAddsOne(l.sleepers, l.ring.Running(), t);
    assert multiset(l.ring.pids)[p] == multiset(l.ring.Exit().pids)[p] + multiset{l.ring.Running()}[p];
  }

  lemma SleepKeepsInv(l: Life, t: nat)
    requires Inv(l) && Enabled(l, Sleep(t))
    ensures Inv(Next(l, Sleep(t)))
  {
    if t > 0 {
      var l' := Next(l, Sleep(t));
      forall p ensures Members(l')[p] == Members(l)[p] {
        SleepMoves(l, t, p);
      }
      InsertAddsOne(l.sleepers, l.ring.Running(), t);
      assert l'.ring.Valid();
    }
  }

  lemma TickKeepsInv(l: Life)
    requires Inv(l)
    ensures SleepersTick(l).ring.Valid() && Inv(Next(l, Tick))
  {
    if l.sleepers != [] {
      assert Closer(l.sleepers)[1..] == l.sleepers[1..];
      DueAndNotDue(Closer(l.sleepers));
      assert Members(SleepersTick(l)) == Members(l);
      RingIsSet(SleepersTick(l));
    }
  }

  lemma ExitMoves(l: Life, q: Pid)
    requires Enabled(l, Exit)
    ensures Members(l)[q] == Members(Next(l, Exit))[q] + if q == l.ring.Running() then 1 else 0
  {
    ExitRemoves(l.ring);
    assert multiset(l.ring.pids)[q] == multiset(l.ring.Exit().pids)[q] + multiset{l.ring.Running()}[q];
  }

  lemma ExitKeepsInv(l: Life)
    requires Inv(l) && Enabled(l, Exit)
    ensures Inv(Next(l, Exit))
  {
    var p, l' := l.ring.Running(), Next(l, Exit);
    forall q ensures Members(l')[q] == multiset(l'.live - {IDLE})[q] {
      ExitMoves(l, q);
      ExitMoves(l, p);
      assert Members(l)[q] == if q in l.live - {IDLE} then 1 else 0;
    }
  }

  lemma StepKeepsInv(l: Life, e: Event)
    requires Inv(l) && Enabled(l, e)
    ensures Inv(Next(l, e))
  {
    match e
    case Spawn(p) => SpawnKeepsInv(l, p);
    case Block(q) => BlockKeepsInv(l, q);
    case Wake(q) => WakeKeepsInv(l, q);
    case Sleep(t) => SleepKeepsInv(l, t);
    case Tick => TickKeepsInv(l);
    case Exit => ExitKeepsInv(l);
  }

  // --- every run ---------------------------------------------------------------------------

  ghost predicate Run(ls: seq<Life>, es: seq<Event>) {
    && |ls| == |es| + 1
    && ls[0].ring == Ring([], None, 0) && ls[0].sleepers == [] && ls[0].live == {IDLE} && Flatten(ls[0].queues) == []
    && forall i {:trigger StepAt(ls, es, i)} :: 0 <= i < |es| ==> StepAt(ls, es, i)
  }

  ghost predicate StepAt(ls: seq<Life>, es: seq<Event>, i: nat)
    requires i < |es| && i + 1 < |ls|
  {
    Enabled(ls[i], es[i]) && ls[i + 1] == Next(ls[i], es[i])
  }

  ghost predicate InRing(l: Life, p: Pid) {
    p in l.ring.pids
  }

  ghost predicate InQueue(l: Life, p: Pid) {
    p in Flatten(l.queues)
  }

  ghost predicate Asleep(l: Life, p: Pid) {
    p in PidsOf(l.sleepers)
  }

  lemma {:induction false} RunKeepsInv(ls: seq<Life>, es: seq<Event>, n: nat)
    requires Run(ls, es) && n <= |es|
    ensures Inv(ls[n])
  {
    if n > 0 {
      RunKeepsInv(ls, es, n - 1);
      assert StepAt(ls, es, n - 1);
      StepKeepsInv(ls[n - 1], es[n - 1]);
    }
  }

  /** The partition: in every reachable state a live process other than the
      idle one is in exactly one of the ring, a wait queue and the delta queue, a
      dead one in none, and the running process is not waiting for anything. */
  lemma OnePlaceEach(ls: seq<Life>, es: seq<Event>, n: nat, p: Pid)
    requires Run(ls, es) && n <= |es|
    ensures var l := ls[n];
            && (p in l.live - {IDLE} <==> InRing(l, p) || InQueue(l, p) || Asleep(l, p))
            && !(InRing(l, p) && InQueue(l, p)) && !(InRing(l, p) && Asleep(l, p)) && !(InQueue(l, p) && Asleep(l, p))
            && l.ring.Valid() && (l.ring.Running() == IDLE || InRing(l, l.ring.Running()))
  {
    RunKeepsInv(ls, es, n);
    var l := ls[n];
    assert Members(l)[p] == multiset(l.ring.pids)[p] + multiset(Flatten(l.queues))[p] + multiset(PidsOf(l.sleepers))[p];
    assert Members(l)[p] == if p in l.live - {IDLE} then 1 else 0;
  }

  // So the scheduler never runs out of slots: the idle process needs none.
  lemma RingFits(l: Life, maxPid: nat)
    requires Inv(l) && forall p :: p in l.live ==> p < maxPid
    ensures |l.ring.pids| < maxPid
  {
    assert |Members(l)| == |l.live - {IDLE}|;
    BoundedSize(l.live, maxPid);
  }

  lemma {:induction false} BoundedSize(s: set<Pid>, n: nat)
    requires forall p :: p in s ==> p < n
    ensures |s| <= n
  {
    if n > 0 {
      BoundedSize(s - {n - 1}, n - 1);
    }
  }

  // --- sleeping exactly as long as asked ------------------------------------------------------

  // The timer ticks among events i to n - 1.
  ghost function Ticks(es: seq<Event>, i: nat, n: nat): nat
    requires i <= n <= |es|
  {
    if n == i then 0 else Ticks(es, i, n - 1) + if es[n - 1].Tick? then 1 else 0
  }

  lemma SleepersAreDistinct(l: Life)
    requires Inv(l)
    ensures Distinct(l.sleepers)
  {
    assert forall p :: multiset(PidsOf(l.sleepers))[p] <= Members(l)[p];
    assert forall p :: Members(l)[p] <= 1;
    CountedOnce(l.sleepers);
  }

  lemma {:induction false} CountedOnce(s: Delta)
    requires forall p :: multiset(PidsOf(s))[p] <= 1
    ensures Distinct(s)
  {
    if s != [] {
      assert multiset(PidsOf(s)) == multiset{s[0].pid} + multiset(PidsOf(s[1..]));
      forall p ensures multiset(PidsOf(s[1..]))[p] <= 1 {
        assert multiset(PidsOf(s[1..]))[p] <= multiset(PidsOf(s))[p];
      }
      assert multiset(PidsOf(s))[s[0].pid] == 1 + multiset(PidsOf(s[1..]))[s[0].pid];
      CountedOnce(s[1..]);
    }
  }

  lemma RunningIsAwake(l: Life)
    requires Inv(l) && l.ring.at.Some?
    ensures InRing(l, l.ring.Running()) && !Asleep(l, l.ring.Running())
  {
    var p := l.ring.Running();
    assert Members(l)[p] <= 1;
    assert Members(l)[p] == multiset(l.ring.pids)[p] + multiset(Flatten(l.queues))[p] + multiset(PidsOf(l.sleepers))[p];
  }

  // What one event does to a sleeper: only the timer brings its deadline closer.
  lemma SleeperStep(l: Life, e: Event, p: Pid)
    requires Inv(l) && Enabled(l, e) && Asleep(l, p)
    ensures var l', d := Next(l, e), Remaining(l.sleepers, p) - if e.Tick? then 1 else 0;
            if d == 0 && e.Tick? then InRing(l', p) && !Asleep(l', p)
            else Asleep(l', p) && Remaining(l'.sleepers, p) == d
  {
    SleepersAreDistinct(l);
    match e
    case Sleep(t) =>
      if t > 0 {
        RunningIsAwake(l);
        InsertKeepsDeadlines(l.sleepers, l.ring.Running(), t, p);
      }
    case Tick =>
      TickKeepsInv(l);
      CloserByOne(l.sleepers, p);
      DueExactly(Closer(l.sleepers), p);
    case _ =>
  }

  /** A process that sleeps for t ticks is asleep until the t-th tick after,
      with exactly the ticks that are left, and in the ring right after it,
      whatever else happens in between. */
  lemma {:induction false} SleepIsExact(ls: seq<Life>, es: seq<Event>, i: nat, n: nat)
    requires Run(ls, es) && i < n <= |es| && es[i].Sleep? && es[i].t > 0
    ensures ls[i].ring.Valid()
    ensures var p, t := ls[i].ring.Running(), es[i].t;
            && (Ticks(es, i + 1, n) < t ==> Asleep(ls[n], p) && Remaining(ls[n].sleepers, p) == t - Ticks(es, i + 1, n))
            && (Ticks(es, i + 1, n) == t && es[n - 1].Tick? ==> InRing(ls[n], p))
    decreases n
  {
    RunKeepsInv(ls, es, i);
    assert StepAt(ls, es, i) && StepAt(ls, es, n - 1);
    RunningIsAwake(ls[i]);
    var p, t := ls[i].ring.Running(), es[i].t;
    if n == i + 1 {
      InsertKeepsDeadlines(ls[i].sleepers, p, t, p);
    } else {
      SleepIsExact(ls, es, i, n - 1);
      RunKeepsInv(ls, es, n - 1);
      if Ticks(es, i + 1, n - 1) < t {
        SleeperStep(ls[n - 1], es[n - 1], p);
      }
    }
  }

  // --- bounded waiting in the whole system -------------------------------------------------------

  // How many processes an event puts into the ring.
  ghost function Loaded(l: Life, e: Event): nat
    requires Enabled(l, e)
  {
    match e
    case Spawn(_) => 1
    case Wake(q) => if l.queues[q] == [] then 0 else 1
    case Tick => if l.sleepers == [] then 0 else |Due(Closer(l.sleepers))|
    case _ => 0
  }

  ghost predicate Ready(l: Life, p: Pid) {
    l.ring.Valid() && l.ring.Waiting(p)
  }

  lemma LoadAllPotential(r: Ring, ps: seq<Pid>, p: Pid)
    requires r.Valid() && LoadAll(r, ps).Valid() && r.Waiting(p)
    ensures LoadAll(r, ps).Waiting(p)
    ensures LoadAll(r, ps).Potential(p) <= r.Potential(p) + (QUANTUM + 1) * |ps|
  {
    PositionIsUnique(LoadAll(r, ps), p, r.IndexOf(p));
  }

  lemma ReadyStep(l: Life, e: Event, l': Life, p: Pid)
    requires Inv(l) && Enabled(l, e) && Ready(l, p) && l' == Next(l, e) && Inv(l') && Ready(l', p)
    ensures l'.ring.Potential(p) <= l.ring.Potential(p) + (QUANTUM + 1) * Loaded(l, e) - if e.Tick? then 1 else 0
    ensures l.ring.Potential(p) > 0
  {
    PotentialStep(l.ring, TickEvent, p);
    if e.Tick? {
      ReadyTick(l, p);
    } else if e.Spawn? || e.Wake? {
      ReadyMore(l, e, p);
    } else {
      ReadyFewer(l, e, p);
    }
  }

  lemma ReadyMore(l: Life, e: Event, p: Pid)
    requires Inv(l) && Enabled(l, e) && (e.Spawn? || e.Wake?) && Ready(l, p) && Inv(Next(l, e))
    ensures Next(l, e).ring.Potential(p) <= l.ring.Potential(p) + (QUANTUM + 1) * Loaded(l, e)
  {
    match e
    case Spawn(c) => LoadAllPotential(l.ring, [c], p);
    case Wake(q) => if l.queues[q] != [] { LoadAllPotential(l.ring, [l.queues[q][0]], p); }
  }

  lemma ReadyFewer(l: Life, e: Event, p: Pid)
    requires Inv(l) && Enabled(l, e) && (e.Block? || e.Sleep? || e.Exit?) && Ready(l, p) && Ready(Next(l, e), p)
    ensures Next(l, e).ring.Potential(p) <= l.ring.Potential(p)
  {
    if !(e.Sleep? && e.t == 0) {
      assert Next(l, e).ring == l.ring.Exit();
      PotentialStep(l.ring, ExitEvent, p);
    }
  }

  lemma ReadyTick(l: Life, p: Pid)
    requires Inv(l) && Ready(l, p) && Inv(Next(l, Tick)) && Ready(Next(l, Tick), p)
    ensures Next(l, Tick).ring.Potential(p) <= l.ring.Potential(p) + (QUANTUM + 1) * Loaded(l, Tick) - 1
  {
    TickKeepsInv(l);
    if l.sleepers != [] {
      LoadAllPotential(l.ring, Due(Closer(l.sleepers)), p);
    }
    PotentialStep(SleepersTick(l).ring, TickEvent, p);
  }

  ghost function TotalLoaded(ls: seq<Life>, es: seq<Event>, i: nat, n: nat): nat
    requires Run(ls, es) && i <= n <= |es|
  {
    if n == i then 0
    else
      assert StepAt(ls, es, n - 1);
      TotalLoaded(ls, es, i, n - 1) + Loaded(ls[n - 1], es[n - 1])
  }

  lemma ReadyStepAt(ls: seq<Life>, es: seq<Event>, p: Pid, i: nat)
    requires Run(ls, es) && i < |es| && Ready(ls[i], p) && Ready(ls[i + 1], p)
    ensures Enabled(ls[i], es[i]) && ls[i].ring.Potential(p) > 0
    ensures ls[i + 1].ring.Potential(p) <=
              ls[i].ring.Potential(p) + (QUANTUM + 1) * Loaded(ls[i], es[i]) - if es[i].Tick? then 1 else 0
  {
    RunKeepsInv(ls, es, i);
    RunKeepsInv(ls, es, i + 1);
    assert StepAt(ls, es, i);
    ReadyStep(ls[i], es[i], ls[i + 1], p);
  }

  /** While a process is ready but does not run, the ticks stay below its
      potential at the start plus eleven for each process loaded since. */
  lemma {:induction false} ReadyProcessesRun(ls: seq<Life>, es: seq<Event>, p: Pid, i: nat, n: nat)
    requires Run(ls, es) && i <= n <= |es|
    requires forall j :: i <= j <= n ==> Ready(ls[j], p)
    ensures Ready(ls[i], p) && Ready(ls[n], p)
    ensures ls[n].ring.Potential(p) + Ticks(es, i, n) <= ls[i].ring.Potential(p) + (QUANTUM + 1) * TotalLoaded(ls, es, i, n)
    ensures Ticks(es, i, n) < ls[i].ring.Potential(p) + (QUANTUM + 1) * TotalLoaded(ls, es, i, n)
    decreases n
  {
    assert Ready(ls[i], p) && Ready(ls[n], p);
    PotentialStep(ls[n].ring, TickEvent, p);
    if n > i {
      ReadyProcessesRun(ls, es, p, i, n - 1);
      ReadyStepAt(ls, es, p, n - 1);
    }
  }

  // --- starvation -------------------------------------------------------------------------

  // A run ends in state l.
  ghost predicate Reaches(l: Life) {
    var reaches := exists ls, es :: Run(ls, es) && ls[|es|] == l;
    reaches
  }

  // A run ends in state l, and since some place in it, n ticks ago, p was ready and did not run.
  ghost predicate Starved(p: Pid, l: Life, n: nat) {
    var starved :=
      exists ls, es, i: nat :: Run(ls, es) && ls[|es|] == l && i <= |es| && ReadySince(ls, p, i) && Ticks(es, i, |es|) == n;
    starved
  }

  ghost predicate ReadySince(ls: seq<Life>, p: Pid, i: nat) {
    forall j {:trigger ls[j]} :: i <= j < |ls| ==> Ready(ls[j], p)
  }

  lemma RunOn(ls: seq<Life>, es: seq<Event>, e: Event)
    requires Run(ls, es) && Enabled(ls[|es|], e)
    ensures Run(ls + [Next(ls[|es|], e)], es + [e])
  {
    var ls', es' := ls + [Next(ls[|es|], e)], es + [e];
    forall i | 0 <= i < |es'| ensures StepAt(ls', es', i) {
      if i < |es| {
        assert StepAt(ls, es, i);
      }
    }
  }

  lemma ReachesNext(l: Life, e: Event)
    requires Reaches(l) && Enabled(l, e)
    ensures Reaches(Next(l, e))
  {
    var ls, es :| Run(ls, es) && ls[|es|] == l;
    RunOn(ls, es, e);
    assert (ls + [Next(l, e)])[|es + [e]|] == Next(l, e);
  }

  lemma StarvedAtFirst(p: Pid, l: Life)
    requires Reaches(l) && Ready(l, p)
    ensures Starved(p, l, 0)
  {
    var ls, es :| Run(ls, es) && ls[|es|] == l;
    assert ReadySince(ls, p, |es|) && Ticks(es, |es|, |es|) == 0;
  }

  lemma TicksBefore(es: seq<Event>, e: Event, i: nat, n: nat)
    requires i <= n <= |es|
    ensures Ticks(es + [e], i, n) == Ticks(es, i, n)
    decreases n
  {
  }

  lemma StarvedOn(p: Pid, l: Life, e: Event, n: nat)
    requires Starved(p, l, n) && Enabled(l, e) && Ready(Next(l, e), p)
    ensures Starved(p, Next(l, e), n + if e.Tick? then 1 else 0)
  {
    var ls, es, i: nat :| Run(ls, es) && ls[|es|] == l && i <= |es| && ReadySince(ls, p, i) && Ticks(es, i, |es|) == n;
    var ls', es' := ls + [Next(l, e)], es + [e];
    RunOn(ls, es, e);
    TicksBefore(es, e, i, |es|);
    assert ls'[|es'|] == Next(l, e) && ReadySince(ls', p, i);
    assert Ticks(es', i, |es'|) == n + if e.Tick? then 1 else 0;
  }

  // Three processes, one wait queue.
  function Three(ring: Ring, queue: seq<Pid>): Life {
    Life(ring, [queue], [], {IDLE, 1, 2, 3})
  }

  lemma ThreeTick(r: Ring)
    requires r.Valid()
    ensures Enabled(Three(r, []), Tick) && Next(Three(r, []), Tick) == Three(r.Tick(), [])
  {
  }

  lemma ThreeBlock(r: Ring)
    requires r.Valid() && r.at.Some?
    ensures Enabled(Three(r, []), Block(0)) && Next(Three(r, []), Block(0)) == Three(r.Exit(), [r.Running()])
  {
    var none: seq<Pid> := [];
    assert none + [r.Running()] == [r.Running()];
  }

  lemma ThreeWake(r: Ring, p: Pid)
    requires r.Valid() && p !in r.pids && p != IDLE
    ensures Enabled(Three(r, [p]), Wake(0)) && Next(Three(r, [p]), Wake(0)) == Three(r.Load(p), [])
  {
    assert [p][1..] == [] && [[p]][0 := []] == [[]];
  }

  // Process 1 uses its quantum up.
  lemma {:induction false} FirstRuns(k: nat)
    requires k <= QUANTUM
    ensures Reaches(Three(Ring([1, 2, 3], Some(0), k), []))
    decreases QUANTUM - k
  {
    if k == QUANTUM {
      AllSpawned();
    } else {
      FirstRuns(k + 1);
      ThreeTick(Ring([1, 2, 3], Some(0), k + 1));
      ReachesNext(Three(Ring([1, 2, 3], Some(0), k + 1), []), Tick);
    }
  }

  // A process is spawned while nobody runs.
  lemma SpawnIdle(pids: seq<Pid>, live: set<Pid>, p: Pid, pids': seq<Pid>, live': set<Pid>)
    requires Ring(pids, None, 0).Valid() && p !in live && pids' == pids + [p] && live' == live + {p}
    requires Reaches(Life(Ring(pids, None, 0), [[]], [], live))
    ensures Reaches(Life(Ring(pids', None, 0), [[]], [], live'))
  {
    ReachesNext(Life(Ring(pids, None, 0), [[]], [], live), Spawn(p));
  }

  lemma StartReached()
    ensures Reaches(Life(Ring([], None, 0), [[]], [], {IDLE}))
  {
    var l := Life(Ring([], None, 0), [[]], [], {IDLE});
    assert Flatten([[]]) == [] + Flatten([]);
    var ls: seq<Life>, es: seq<Event> := [l], [];
    assert Run(ls, es) && ls[|es|] == l;
  }

  lemma AllSpawned()
    ensures Reaches(Three(Ring([1, 2, 3], Some(0), QUANTUM), []))
  {
    StartReached();
    SpawnIdle([], {IDLE}, 1, [1], {IDLE, 1});
    SpawnIdle([1], {IDLE, 1}, 2, [1, 2], {IDLE, 1, 2});
    SpawnIdle([1, 2], {IDLE, 1, 2}, 3, [1, 2, 3], {IDLE, 1, 2, 3});
    ThreeTick(Ring([1, 2, 3], None, 0));
    ReachesNext(Three(Ring([1, 2, 3], None, 0), []), Tick);
  }

  // One turn: p runs for a tick and blocks; q, which runs next, wakes it.
  lemma TurnOfTwo(p: Pid, q: Pid, n: nat, to: Life, m: nat)
    requires Starved(1, Three(Turn(p, q), []), n) && 1 < p && 1 < q && p != q
    requires to == Three(Turn(q, p), []) && m == n + 1
    ensures Starved(1, to, m)
  {
    OneTurn(p, q);
    var r := Turn(p, q);
    ThreeTick(r);
    ThreeBlock(r.Tick());
    ThreeWake(r.Tick().Exit(), p);
    StarvedOn(1, Three(r, []), Tick, n);
    StarvedOn(1, Three(r.Tick(), []), Block(0), n + 1);
    StarvedOn(1, Three(r.Tick().Exit(), [p]), Wake(0), n + 1);
  }

  lemma FirstTurn()
    ensures Starved(1, Three(Turn(2, 3), []), 0)
  {
    var r := Ring([1, 2, 3], Some(0), 0);
    FirstRuns(0);
    ThreeTick(r);
    ReachesNext(Three(r, []), Tick);
    OneTurn(2, 3);
    StarvedAtFirst(1, Three(Turn(2, 3), []));
  }

  /** From the start of the system, two processes that block and wake each other
      keep a third one, ready all the time, from running for any number of
      ticks: the term for the processes made ready is needed. */
  lemma {:induction false} TwoStarveAThird(n: nat)
    ensures var r := AfterTurns(2, 3, n); Starved(1, Three(Turn(r.0, r.1), []), n)
  {
    if n == 0 {
      FirstTurn();
    } else {
      TwoStarveAThird(n - 1);
      var r := AfterTurns(2, 3, n - 1);
      TurnOfTwo(r.0, r.1, n - 1, Three(Turn(r.1, r.0), []), n);
    }
  }
}
