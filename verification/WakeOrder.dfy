// Which queue a blocked process waits in, and when it is woken, in every run.
module WakeOrder {
  import opened Common
  import R = RunRing
  import opened Lifecycle

  // --- where a blocked process waits -----------------------------------------------------

  lemma {:induction false} NobodyAtFirst(queues: seq<seq<R.Pid>>, q: nat)
    requires Flatten(queues) == [] && q < |queues|
    ensures queues[q] == []
  {
    if q > 0 {
      NobodyAtFirst(queues[1..], q - 1);
    }
  }

  lemma {:induction false} InFlatten(queues: seq<seq<R.Pid>>, q: nat, p: R.Pid)
    requires q < |queues| && p in queues[q]
    ensures p in Flatten(queues)
  {
    if q > 0 {
      InFlatten(queues[1..], q - 1, p);
    }
  }

  // Nobody waits in two queues, nor in one and is ready.
  lemma WaitsOnce(l: Life, q: nat, r: nat, p: R.Pid)
    requires Inv(l) && q < |l.queues| && r < |l.queues| && q != r && p in l.queues[q]
    ensures p !in l.queues[r] && !InRing(l, p)
  {
    var none: seq<R.Pid> := [];
    FlattenUpdate(l.queues, q, none, p);
    if p in l.queues[r] {
      InFlatten(l.queues[q := none], r, p);
    }
    InFlatten(l.queues, q, p);
    assert Members(l)[p] <= 1;
  }

  lemma WaitsAsleep(l: Life, q: nat, p: R.Pid)
    requires Inv(l) && q < |l.queues| && p in l.queues[q]
    ensures !InRing(l, p) && !Asleep(l, p)
  {
    InFlatten(l.queues, q, p);
    assert Members(l)[p] <= 1;
  }

  // --- who is woken, and when ----------------------------------------------------------------

  // Who blocks in queue q by event e.
  function BlockedBy(l: Life, e: Event, q: nat): seq<R.Pid> {
    if e == Block(q) && l.ring.Valid() then [l.ring.Running()] else []
  }

  // Who has blocked in queue q, in that order.
  ghost function Blocked(ls: seq<Life>, es: seq<Event>, q: nat, n: nat): seq<R.Pid>
    requires Run(ls, es) && n <= |es|
  {
    if n == 0 then [] else Blocked(ls, es, q, n - 1) + BlockedBy(ls[n - 1], es[n - 1], q)
  }

  // Whom event e has put into the ring, at its end, if it is a wake-up of queue q.
  function WokenBy(l: Life, e: Event, q: nat, l': Life): seq<R.Pid> {
    if e == Wake(q) && l.ring.pids <= l'.ring.pids then l'.ring.pids[|l.ring.pids|..] else []
  }

  ghost function Woken(ls: seq<Life>, es: seq<Event>, q: nat, n: nat): seq<R.Pid>
    requires Run(ls, es) && n <= |es|
  {
    if n == 0 then [] else Woken(ls, es, q, n - 1) + WokenBy(ls[n - 1], es[n - 1], q, ls[n])
  }

  lemma FifoStep(l: Life, e: Event, q: nat)
    requires Enabled(l, e) && q < |l.queues|
    ensures |Next(l, e).queues| == |l.queues|
    ensures l.queues[q] + BlockedBy(l, e, q) == WokenBy(l, e, q, Next(l, e)) + Next(l, e).queues[q]
  {
    if e == Wake(q) && l.queues[q] != [] {
      assert l.queues[q] == [l.queues[q][0]] + l.queues[q][1..];
    }
  }

  lemma Regrouped(woken: seq<R.Pid>, queue: seq<R.Pid>, more: seq<R.Pid>, now: seq<R.Pid>, left: seq<R.Pid>)
    requires queue + more == now + left
    ensures woken + queue + more == woken + now + left
  {
    assert woken + queue + more == woken + (queue + more);
    assert woken + now + left == woken + (now + left);
  }

  /** Every wait queue is first come, first served: who has blocked in it are those
      that its wake-ups made ready, in that order, and then those who wait. */
  lemma {:induction false} QueuesAreFifo(ls: seq<Life>, es: seq<Event>, q: nat, n: nat)
    requires Run(ls, es) && n <= |es| && q < |ls[0].queues|
    ensures |ls[n].queues| == |ls[0].queues|
    ensures Blocked(ls, es, q, n) == Woken(ls, es, q, n) + ls[n].queues[q]
  {
    if n == 0 {
      NobodyAtFirst(ls[0].queues, q);
    } else {
      QueuesAreFifo(ls, es, q, n - 1);
      assert StepAt(ls, es, n - 1);
      FifoStep(ls[n - 1], es[n - 1], q);
      Regrouped(Woken(ls, es, q, n - 1), ls[n - 1].queues[q], BlockedBy(ls[n - 1], es[n - 1], q),
                WokenBy(ls[n - 1], es[n - 1], q, ls[n]), ls[n].queues[q]);
    }
  }

  // The wake-ups of queue q among events i to n - 1.
  ghost function Wakes(es: seq<Event>, q: nat, i: nat, n: nat): nat
    requires i <= n <= |es|
  {
    if n == i then 0 else Wakes(es, q, i, n - 1) + if es[n - 1] == Wake(q) then 1 else 0
  }

  // Process p is at place k of queue q, and nowhere else.
  ghost predicate WaitsAt(l: Life, q: nat, p: R.Pid, k: int) {
    && q < |l.queues| && 0 <= k < |l.queues[q]| && l.queues[q][k] == p
    && !InRing(l, p) && !Asleep(l, p)
    && forall r :: 0 <= r < |l.queues| && r != q ==> p !in l.queues[r]
  }

  lemma WaitsAtPlace(l: Life, q: nat, p: R.Pid, k: nat)
    requires Inv(l) && q < |l.queues| && k < |l.queues[q]| && l.queues[q][k] == p
    ensures WaitsAt(l, q, p, k)
  {
    WaitsAsleep(l, q, p);
    forall r | 0 <= r < |l.queues| && r != q ensures p !in l.queues[r] {
      WaitsOnce(l, q, r, p);
    }
  }

  // What one event does to a place in a queue.
  lemma QueueStep(l: Life, e: Event, q: nat, k: nat)
    requires Enabled(l, e) && q < |l.queues| && k < |l.queues[q]|
    ensures var queue, l' := l.queues[q], Next(l, e);
            && q < |l'.queues|
            && if e != Wake(q) then k < |l'.queues[q]| && l'.queues[q][k] == queue[k]
               else if k > 0 then k - 1 < |l'.queues[q]| && l'.queues[q][k - 1] == queue[k]
               else l'.ring.pids == l.ring.pids + [queue[k]]
  {
  }

  // One event moves a process that waits by one place at most.
  lemma WaiterStep(l: Life, e: Event, q: nat, p: R.Pid, k: nat)
    requires Inv(l) && Enabled(l, e) && WaitsAt(l, q, p, k)
    ensures var l' := Next(l, e);
            if e != Wake(q) then WaitsAt(l', q, p, k)
            else if k > 0 then WaitsAt(l', q, p, k - 1)
            else InRing(l', p)
  {
    QueueStep(l, e, q, k);
    StepKeepsInv(l, e);
    if e != Wake(q) {
      WaitsAtPlace(Next(l, e), q, p, k);
    } else if k > 0 {
      WaitsAtPlace(Next(l, e), q, p, k - 1);
    }
  }

  /** The process that blocks in queue q behind k others waits there, and in no other
      place, until exactly the (k + 1)-th wake-up of q, and is ready right after
      it, whatever else happens in between. The other queues stay as they are. */
  lemma {:induction false} BlockIsExact(ls: seq<Life>, es: seq<Event>, i: nat, n: nat)
    requires Run(ls, es) && i < n <= |es| && es[i].Block?
    ensures ls[i].ring.Valid() && es[i].q < |ls[i].queues| == |ls[i + 1].queues|
    ensures forall r :: 0 <= r < |ls[i].queues| && r != es[i].q ==> ls[i + 1].queues[r] == ls[i].queues[r]
    ensures var p, q := ls[i].ring.Running(), es[i].q;
            var k, woken := |ls[i].queues[q]|, Wakes(es, q, i + 1, n);
            && (woken <= k ==> WaitsAt(ls[n], q, p, k - woken))
            && (woken == k + 1 && es[n - 1] == Wake(q) ==> InRing(ls[n], p))
    decreases n
  {
    assert StepAt(ls, es, i) && StepAt(ls, es, n - 1);
    var p, q := ls[i].ring.Running(), es[i].q;
    var k := |ls[i].queues[q]|;
    if n == i + 1 {
      RunKeepsInv(ls, es, n);
      WaitsAtPlace(ls[n], q, p, k);
    } else {
      BlockIsExact(ls, es, i, n - 1);
      RunKeepsInv(ls, es, n - 1);
      if Wakes(es, q, i + 1, n - 1) <= k {
        WaiterStep(ls[n - 1], es[n - 1], q, p, k - Wakes(es, q, i + 1, n - 1));
      }
    }
  }

  // --- sleepers ----------------------------------------------------------------------------------

  /** A process that goes to sleep is put behind those that wake before it does, and
      before those that wake with it or later; nobody else changes places. */
  lemma {:induction false} InsertPlace(s: Delta, p: R.Pid, t: nat) returns (k: nat)
    requires Distinct(s)
    ensures k <= |PidsOf(s)| && PidsOf(Insert(s, p, t)) == PidsOf(s)[..k] + [p] + PidsOf(s)[k..]
    ensures forall i :: 0 <= i < |PidsOf(s)| ==> (i < k <==> Remaining(s, PidsOf(s)[i]) < t)
  {
    k := 0;
    if s != [] && s[0].time < t {
      var j := InsertPlace(s[1..], p, t - s[0].time);
      k := j + 1;
      assert Insert(s, p, t)[1..] == Insert(s[1..], p, t - s[0].time);
      InFront(s[0].pid, PidsOf(s[1..]), p, j);
      forall i | 1 <= i < |PidsOf(s)| ensures Remaining(s, PidsOf(s)[i]) == s[0].time + Remaining(s[1..], PidsOf(s[1..])[i - 1]) {
        assert PidsOf(s)[i] == PidsOf(s[1..])[i - 1];
      }
    } else if s != [] {
      assert Insert(s, p, t)[1..] == [Sleeper(s[0].pid, s[0].time - t)] + s[1..];
      assert Insert(s, p, t)[1..][1..] == s[1..];
    }
  }

  lemma InFront(first: R.Pid, rest: seq<R.Pid>, p: R.Pid, j: nat)
    requires j <= |rest|
    ensures [first] + (rest[..j] + [p] + rest[j..]) == ([first] + rest)[..j + 1] + [p] + ([first] + rest)[j + 1..]
  {
  }

  lemma {:induction false} DueComeFirst(s: Delta)
    ensures |Due(s)| <= |PidsOf(s)| && PidsOf(s)[..|Due(s)|] == Due(s) && PidsOf(s)[|Due(s)|..] == PidsOf(NotDue(s))
  {
    if s != [] && s[0].time == 0 {
      DueComeFirst(s[1..]);
      OneMoreFirst(s[0].pid, PidsOf(s[1..]), |Due(s[1..])|);
    }
  }

  lemma OneMoreFirst(p: R.Pid, rest: seq<R.Pid>, n: nat)
    requires n <= |rest|
    ensures ([p] + rest)[..n + 1] == [p] + rest[..n] && ([p] + rest)[n + 1..] == rest[n..]
  {
  }

  // The first n sleepers are woken: those that have one tick left.
  ghost predicate FirstWoken(s: Delta, n: int) {
    0 <= n <= |PidsOf(s)| && forall p :: p in PidsOf(s) ==> (p in PidsOf(s)[..n] <==> Remaining(s, p) == 1)
  }

  lemma SleepersWake(s: Delta)
    requires s != [] && s[0].time > 0 && Distinct(s)
    ensures var n := |Due(Closer(s))|;
            FirstWoken(s, n) && PidsOf(s)[..n] == Due(Closer(s)) && PidsOf(s)[n..] == PidsOf(NotDue(Closer(s)))
  {
    CloserByOne(s, 0);
    DueComeFirst(Closer(s));
    forall p | p in PidsOf(s) ensures p in Due(Closer(s)) <==> Remaining(s, p) == 1 {
      DueByOne(s, p);
    }
  }

  lemma TickOfRing(l: Life)
    requires Inv(l) && SleepersTick(l).ring.Valid()
    ensures var l', m := Next(l, Tick), SleepersTick(l);
            && l' == m.(ring := m.ring.Tick()) && l'.ring.pids == m.ring.pids && l'.ring.Valid()
            && (l.ring.pids == [] && m.ring.pids != [] ==> l'.ring.Running() == m.ring.pids[0])
  {
  }

  /** A tick makes the first sleepers ready, in their order: those that had one tick
      left. Then the scheduler has its tick, and may choose one of them at once. */
  lemma TickWakesInOrder(l: Life) returns (n: nat)
    requires Inv(l)
    ensures Enabled(l, Tick) && FirstWoken(l.sleepers, n)
    ensures var l', pids := Next(l, Tick), PidsOf(l.sleepers);
            && l'.ring.pids == l.ring.pids + pids[..n] && PidsOf(l'.sleepers) == pids[n..]
            && (l.ring.pids == [] && n > 0 ==> l'.ring.Valid() && l'.ring.Running() == pids[0])
            && l'.queues == l.queues && l'.live == l.live
  {
    TickKeepsInv(l);
    TickOfRing(l);
    n := 0;
    if l.sleepers != [] {
      SleepersAreDistinct(l);
      SleepersWake(l.sleepers);
      n := |Due(Closer(l.sleepers))|;
    }
  }

  lemma DueByOne(s: Delta, p: R.Pid)
    requires s != [] && s[0].time > 0 && Distinct(s) && p in PidsOf(s)
    ensures p in Due(Closer(s)) <==> Remaining(s, p) == 1
  {
    CloserByOne(s, p);
    DueExactly(Closer(s), p);
  }

  // --- who is alive, and who runs ------------------------------------------------------------------

  /** Exit takes the running process out of every place and makes it dead; Spawn adds
      a process to the ring; a sleep of no ticks does nothing. */
  lemma LivesAndDies(l: Life, p: R.Pid)
    requires Inv(l)
    ensures Enabled(l, Spawn(p)) ==>
              var l' := Next(l, Spawn(p));
              l'.live == l.live + {p} && l'.ring.pids == l.ring.pids + [p] && l'.queues == l.queues && l'.sleepers == l.sleepers
    ensures Enabled(l, Event.Exit) ==>
              var l', q := Next(l, Event.Exit), l.ring.Running();
              && l'.live == l.live - {q} && q !in l'.live && !InRing(l', q) && !InQueue(l', q) && !Asleep(l', q)
              && l'.queues == l.queues && l'.sleepers == l.sleepers
    ensures Enabled(l, Sleep(0)) ==> Next(l, Sleep(0)) == l
  {
    if l.ring.at.Some? {
      var q, l' := l.ring.Running(), Next(l, Event.Exit);
      ExitKeepsInv(l);
      assert Members(l')[q] == 0;
    }
  }

  /** When the running process blocks, sleeps or ends, all others that are ready move
      up by one; when a process is woken or spawned, the running one goes on. */
  lemma SuccessorRuns(l: Life, e: Event, q: R.Pid)
    requires Inv(l) && Enabled(l, e) && !e.Tick? && !(e.Sleep? && e.t == 0)
    ensures Next(l, e).ring.Valid()
    ensures e.Spawn? || e.Wake? ==> Next(l, e).ring.Running() == l.ring.Running() && Next(l, e).ring.quantum == l.ring.quantum
    ensures e.Block? || e.Sleep? || e.Exit? ==> (InRing(Next(l, e), q) <==> InRing(l, q) && q != l.ring.Running())
    ensures (e.Block? || e.Sleep? || e.Exit?) && Ready(l, q) ==> Next(l, e).ring.Potential(q) == 11 * (l.ring.Distance(q) - 1)
  {
    StepKeepsInv(l, e);
    if e.Block? || e.Sleep? || e.Exit? {
      assert Next(l, e).ring == l.ring.Exit();
      R.ExitAdvances(l.ring, q);
    }
  }

  // The processes that the bound on waiting counts are those that join the ring.
  lemma LoadedIsJoined(l: Life, e: Event)
    requires Inv(l) && Enabled(l, e)
    ensures |Next(l, e).ring.pids| ==
              |l.ring.pids| + Loaded(l, e) - if e.Block? || (e.Sleep? && e.t > 0) || e.Exit? then 1 else 0
  {
    if e.Tick? {
      TickKeepsInv(l);
      TickOfRing(l);
    }
  }
}
