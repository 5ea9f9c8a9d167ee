// kernel/loader.c: the arrays and variables behind the life of processes.
// Every operation is one event of Lifecycle on the ghost state `life`.
module Loader {
  import opened Common
  import opened RunRing
  import L = Lifecycle
  import opened WaitQueues
  import S = Scheduler

  // --- reachable states ------------------------------------------------------------------

  ghost predicate Reachable(l: L.Life) {
    exists ls, es :: RunTo(ls, es, l)
  }

  ghost predicate RunTo(ls: seq<L.Life>, es: seq<L.Event>, l: L.Life) {
    L.Run(ls, es) && ls[|es|] == l
  }

  lemma ReachableInv(l: L.Life)
    requires Reachable(l)
    ensures L.Inv(l)
  {
    var ls, es :| RunTo(ls, es, l);
    L.RunKeepsInv(ls, es, |es|);
  }

  lemma ReachableStep(l: L.Life, e: L.Event)
    requires Reachable(l) && L.Enabled(l, e)
    ensures Reachable(L.Next(l, e))
  {
    var ls, es :| RunTo(ls, es, l);
    var ls', es' := ls + [L.Next(l, e)], es + [e];
    forall i | 0 <= i < |es'| ensures L.StepAt(ls', es', i) {
      assert i < |es| ==> L.StepAt(ls, es, i);
    }
    assert RunTo(ls', es', L.Next(l, e));
  }

  lemma {:induction false} NothingQueued(queues: seq<seq<Pid>>)
    requires forall q :: 0 <= q < |queues| ==> queues[q] == []
    ensures L.Flatten(queues) == []
  {
    if queues != [] {
      NothingQueued(queues[1..]);
    }
  }

  // The idle process, and nobody waits.
  ghost function Start(queueCount: nat): L.Life {
    L.Life(Ring([], None, 0), seq(queueCount, _ => []), [], {IDLE})
  }

  lemma StartIsReachable(l: L.Life)
    requires l.ring == Ring([], None, 0) && l.sleepers == [] && l.live == {IDLE}
    requires forall q :: 0 <= q < |l.queues| ==> l.queues[q] == []
    ensures Reachable(l)
  {
    NothingQueued(l.queues);
    assert RunTo([l], [], l);
  }

  // The running process waits for nothing, and neither does one that does not exist.
  lemma RunningIsFree(l: L.Life)
    requires Reachable(l) && l.ring.Valid() && l.ring.at.Some?
    ensures l.ring.Running() in l.live
    ensures !Queued(l.queues, l.ring.Running()) && l.ring.Running() !in L.PidsOf(l.sleepers)
  {
    ReachableInv(l);
    var p := l.ring.Running();
    assert L.Members(l)[p] <= 1;
    assert L.Members(l)[p] == multiset(l.ring.pids)[p] + multiset(L.Flatten(l.queues))[p] + multiset(L.PidsOf(l.sleepers))[p];
  }

  lemma DeadAreUnqueued(l: L.Life, p: Pid)
    requires Reachable(l) && p !in l.live
    ensures !Queued(l.queues, p)
  {
    ReachableInv(l);
    assert p !in L.Members(l);
  }

  lemma RingIsBounded(l: L.Life, maxPid: nat)
    requires Reachable(l) && forall p :: p in l.live ==> p < maxPid
    ensures l.ring.Valid() && |l.ring.pids| < maxPid
  {
    ReachableInv(l);
    L.RingFits(l, maxPid);
  }

  // --- the scheduler's slots -----------------------------------------------------------------

  lemma RoomToLoad(tasks: seq<S.Node>, order: seq<nat>)
    requires S.Occupied(tasks, order) && |order| < |tasks|
    ensures exists s :: 0 <= s < |tasks| && tasks[s].pd == S.FREE_PID
  {
    if forall s :: 0 <= s < |tasks| ==> tasks[s].pd != S.FREE_PID {
      assert forall s: nat :: s < |tasks| ==> s in order;
      Covers(order, |tasks|);
    }
  }

  // n different slots need n entries.
  lemma {:induction false} Covers(order: seq<nat>, n: nat)
    requires forall s: nat :: s < n ==> s in order
    ensures |order| >= n
  {
    if n > 0 {
      var m: nat := n - 1;
      assert m in order;
      var i :| 0 <= i < |order| && order[i] == m;
      var rest := order[..i] + order[i + 1..];
      forall s: nat | s < n - 1 ensures s in rest {
        assert s in order;
        var j :| 0 <= j < |order| && order[j] == s;
        assert rest[if j < i then j else j - 1] == s;
      }
      Covers(rest, n - 1);
    }
  }

  class Loader {
    const pcbs: array<Pcb>
    const heads: array<int>
    const sleeping: array<Slept>
    const sched: S.Scheduler
    var first: int      // first_slept
    var cur: nat        // cur_pid
    ghost var life: L.Life

    // loader_init and sched_init: the idle process, pid 0, is all there is.
    constructor (maxPid: nat, queueCount: nat)
      requires maxPid > 0
      ensures Valid() && life == Start(queueCount)
      ensures pcbs.Length == maxPid && heads.Length == queueCount
      ensures fresh(pcbs) && fresh(heads) && fresh(sleeping) && fresh(sched) && fresh(sched.tasks)
    {
      pcbs := new Pcb[maxPid](i => Pcb(i == IDLE, NONE, NONE));
      heads := new int[queueCount](_ => NONE);
      sleeping := new Slept[maxPid](_ => Slept(NONE, 0, NONE));
      sched := new S.Scheduler(maxPid);
      first, cur := NONE, IDLE;
      life := Start(queueCount);
      new;
      StartIsRepresented(pcbs[..], heads[..], sleeping[..], queueCount);
    }

    ghost predicate Alive()
      reads this, pcbs
    {
      var alive :=
        && pcbs.Length == sleeping.Length == sched.tasks.Length
        && (forall p :: p in life.live ==> p < pcbs.Length)
        && (forall p: nat :: p < pcbs.Length ==> (pcbs[p].live <==> p in life.live));
      alive
    }

    ghost predicate Valid()
      reads this, pcbs, heads, sleeping, sched, sched.tasks
    {
      && Alive() && Reachable(life)
      && sched.Valid() && sched.ring == life.ring && cur == life.ring.Running()
      && Represented(pcbs[..], heads[..], life.queues)
      && Chain(sleeping[..], first, life.sleepers)
    }

    // The walk of loader_enqueue to the end of a queue that is not empty.
    method Tail(q: nat, ghost queues: seq<seq<Pid>>) returns (r: nat)
      requires Represented(pcbs[..], heads[..], queues) && q < heads.Length && heads[q] != NONE
      ensures queues[q] != [] && r == queues[q][|queues[q]| - 1] && r < pcbs.Length
    {
      ghost var s := queues[q];
      assert QueueAt(pcbs[..], heads[..], queues, q);
      ghost var i: nat := 0;
      assert LinkedAt(pcbs[..], s, i);
      r := heads[q];
      while pcbs[r].next != NONE
        invariant i < |s| && r == s[i] && r < pcbs.Length && pcbs[r].next == if i + 1 < |s| then s[i + 1] else NONE
        decreases |s| - i
      {
        r := pcbs[r].next;
        i := i + 1;
        assert LinkedAt(pcbs[..], s, i);
      }
    }

    // The links that loader_enqueue writes.
    method LinkIntoQueue(q: nat, ghost queues: seq<seq<Pid>>)
      requires Represented(pcbs[..], heads[..], queues) && q < heads.Length && cur < pcbs.Length && !Queued(queues, cur)
      modifies pcbs, heads
      ensures Represented(pcbs[..], heads[..], queues[q := queues[q] + [cur]])
      ensures forall p :: 0 <= p < pcbs.Length ==> pcbs[p].live == old(pcbs[p].live)
    {
      assert QueueAt(pcbs[..], heads[..], queues, q);
      assert pcbs[..][cur].prev == NONE && pcbs[..][cur].next == NONE;
      if heads[q] == NONE {
        heads[q] := cur;
      } else {
        var r := Tail(q, queues);
        InFlatten(queues, q, |queues[q]| - 1);
        pcbs[r] := pcbs[r].(next := cur);
        pcbs[cur] := pcbs[cur].(prev := r);
      }
      Append(old(pcbs[..]), old(heads[..]), queues, q, cur, pcbs[..], heads[..]);
    }

    // loader_enqueue
    method Enqueue(q: nat)
      requires Valid() && q < heads.Length && life.ring.at.Some?
      modifies this`cur, this`life, pcbs, heads, sched, sched.tasks
      ensures Valid() && life == L.Next(old(life), L.Block(q))
    {
      RunningIsFree(life);
      ReachableStep(life, L.Block(q));
      assert !Queued(life.queues, cur);
      LinkIntoQueue(q, life.queues);
      life := L.Next(life, L.Block(q));
      cur := sched.Exit();
    }

    method UnlinkHead(q: nat, ghost queues: seq<seq<Pid>>) returns (p: Pid)
      requires Represented(pcbs[..], heads[..], queues) && q < heads.Length && heads[q] != NONE
      modifies pcbs, heads
      ensures queues[q] != [] && p == queues[q][0]
      ensures Represented(pcbs[..], heads[..], queues[q := queues[q][1..]])
      ensures forall p :: 0 <= p < pcbs.Length ==> pcbs[p].live == old(pcbs[p].live)
    {
      ghost var s := queues[q];
      assert QueueAt(pcbs[..], heads[..], queues, q);
      assert LinkedAt(pcbs[..], s, 0) && LinkedAt(pcbs[..], s, 1);
      assert Once(queues, q, 0, q, 1);
      p := heads[q];
      if pcbs[p].next != NONE {
        var r := pcbs[p].next;
        pcbs[r] := pcbs[r].(prev := NONE);
        pcbs[p] := pcbs[p].(next := NONE);
        heads[q] := r;
      } else {
        heads[q] := NONE;
      }
      Pop(old(pcbs[..]), old(heads[..]), queues, q, pcbs[..], heads[..]);
    }

    // loader_unqueue
    method Unqueue(q: nat)
      requires Valid() && q < heads.Length
      modifies this`life, pcbs, heads, sched, sched.tasks
      ensures Valid() && life == L.Next(old(life), L.Wake(q))
    {
      assert QueueAt(pcbs[..], heads[..], life.queues, q);
      ReachableStep(life, L.Wake(q));
      if heads[q] != NONE {
        var p := UnlinkHead(q, life.queues);
        life := L.Next(life, L.Wake(q));
        RingIsBounded(life, pcbs.Length);
        Unblock(p, life.ring);
      }
    }

    // sched_unblock on the way to the ring `goal`: there is always a free slot.
    method Unblock(p: Pid, ghost goal: Ring)
      requires sched.Valid() && goal.Valid() && |goal.pids| <= sched.tasks.Length
      requires sched.ring.pids + [p] <= goal.pids
      modifies sched, sched.tasks
      ensures sched.Valid() && old(sched.ring).pids + [p] <= goal.pids
      ensures sched.ring == old(sched.ring).(pids := old(sched.ring).pids + [p])
    {
      NextOfGoal(goal, sched.ring.pids, p);
      RoomToLoad(sched.tasks[..], sched.order);
      sched.Load(p);
    }

    // get_new_pid
    method GetNewPid() returns (p: Pid)
      requires exists f :: 0 <= f < pcbs.Length && !pcbs[f].live
      ensures p < pcbs.Length && !pcbs[p].live && forall f :: 0 <= f < p ==> pcbs[f].live
    {
      p := 0;
      while pcbs[p].live
        invariant p < pcbs.Length
        invariant forall f :: 0 <= f < p ==> pcbs[f].live
        decreases pcbs.Length - p
      {
        p := p + 1;
      }
    }

    // A new process, from the choice of its pid to the sched_load at the end.
    method Spawn() returns (p: Pid)
      requires Valid() && exists f :: 0 <= f < pcbs.Length && !pcbs[f].live
      modifies this`life, pcbs, sched, sched.tasks
      ensures old(L.Enabled(life, L.Spawn(p)))
      ensures Valid() && life == L.Next(old(life), L.Spawn(p))
    {
      p := GetNewPid();
      DeadAreUnqueued(life, p);
      assert !Queued(life.queues, p);
      assert pcbs[..][p].prev == NONE && pcbs[..][p].next == NONE;
      ReachableStep(life, L.Spawn(p));
      life := L.Next(life, L.Spawn(p));
      RingIsBounded(life, pcbs.Length);
      SetPcb(p, true, life.queues);
      Unblock(p, life.ring);
    }

    // A process starts or ends; it has no links in either case.
    method SetPcb(p: Pid, live: bool, ghost queues: seq<seq<Pid>>)
      requires p < pcbs.Length && pcbs[p].prev == NONE && pcbs[p].next == NONE
      requires Represented(pcbs[..], heads[..], queues)
      modifies pcbs
      ensures Represented(pcbs[..], heads[..], queues)
      ensures forall r :: 0 <= r < pcbs.Length ==> pcbs[r].live == if r == p then live else old(pcbs[r].live)
    {
      pcbs[p] := Pcb(live, NONE, NONE);
      SameLinks(old(pcbs[..]), pcbs[..], heads[..], queues);
    }

    // loader_exit, its device and memory parts aside. The links of the running
    // process are free, so the branches that unlink it from a queue never run.
    method Exit()
      requires Valid() && life.ring.at.Some?
      modifies this`cur, this`life, pcbs, sched, sched.tasks
      ensures Valid() && life == L.Next(old(life), L.Exit)
    {
      RunningIsFree(life);
      ReachableStep(life, L.Exit);
      assert !Queued(life.queues, cur);
      life := L.Next(life, L.Exit);
      LeaveRing(life.queues);
    }

    method LeaveRing(ghost queues: seq<seq<Pid>>)
      requires sched.Valid() && sched.ring.at.Some?
      requires Represented(pcbs[..], heads[..], queues) && cur < pcbs.Length && !Queued(queues, cur)
      modifies this`cur, pcbs, sched, sched.tasks
      ensures sched.Valid() && sched.ring == old(sched.ring).Exit() && cur == sched.ring.Running()
      ensures Represented(pcbs[..], heads[..], queues)
      ensures forall r :: 0 <= r < pcbs.Length ==> pcbs[r].live == (r != old(cur) && old(pcbs[r].live))
    {
      assert pcbs[..][cur].prev == NONE && pcbs[..][cur].next == NONE;
      var next := sched.Exit();
      if !(pcbs[cur].prev == NONE && pcbs[cur].next == NONE) {
        assert false;
      }
      SetPcb(cur, false, queues);
      cur := next;
    }

    // The walk of loader_sleep: it stops before the first sleeper that wakes no
    // earlier, with the ticks between the wake-ups before and after.
    method Walk(time: nat, ghost d: L.Delta) returns (prev: int, here: int, left: nat, ghost k: nat)
      requires Chain(sleeping[..], first, d)
      ensures k <= |d| && (k < |d| ==> left <= d[k].time)
      ensures here == PidAt(d, k) && prev == (if k == 0 then NONE else d[k - 1].pid)
      ensures L.Insert(d, cur, time) == InsertAt(d, k, cur, left)
    {
      prev, here, left, k := NONE, first, time, 0;
      assert SleptAt(sleeping[..], d, 0);
      while here != NONE && sleeping[here].time < left
        invariant k <= |d| && here == PidAt(d, k) && SleptAt(sleeping[..], d, k)
        invariant prev == if k == 0 then NONE else d[k - 1].pid
        invariant L.Insert(d, cur, time) == d[..k] + L.Insert(d[k..], cur, left)
        decreases |d| - k
      {
        assert SleptAt(sleeping[..], d, k + 1);
        InsertStep(d, k, cur, left);
        left := left - sleeping[here].time;
        prev := here;
        here := sleeping[here].next;
        k := k + 1;
      }
      InsertStop(d, k, cur, left);
    }

    // The links that loader_sleep writes.
    method ThreadIntoDelta(time: nat, ghost d: L.Delta)
      requires Chain(sleeping[..], first, d) && L.Distinct(d)
      requires cur < sleeping.Length && cur !in L.PidsOf(d)
      modifies this`first, sleeping
      ensures Chain(sleeping[..], first, L.Insert(d, cur, time))
    {
      var prev, here, left, k := Walk(time, d);
      ghost var was := first;
      if k > 0 { assert SleptAt(sleeping[..], d, k - 1); InPids(d, k - 1); }
      if k < |d| { assert SleptAt(sleeping[..], d, k); InPids(d, k); }
      if 0 < k < |d| { PidsDiffer(d, k - 1, k); }
      if prev == NONE {
        first := cur;
      } else {
        sleeping[prev] := sleeping[prev].(next := cur);
      }
      sleeping[cur] := Slept(cur, left, here);
      if here != NONE {
        sleeping[here] := sleeping[here].(time := sleeping[here].time - left);
      }
      InsertedChain(old(sleeping[..]), was, d, k, cur, left, sleeping[..]);
    }

    // loader_sleep
    method Sleep(time: nat)
      requires Valid() && life.ring.at.Some?
      modifies this`first, this`cur, this`life, sleeping, sched, sched.tasks
      ensures Valid() && life == L.Next(old(life), L.Sleep(time))
    {
      if time <= 0 {
        return;
      }
      RunningIsFree(life);
      ReachableStep(life, L.Sleep(time));
      SleepersDiffer(life);
      life := L.Next(life, L.Sleep(time));
      ThreadAndLeave(time, old(life.sleepers));
    }

    method ThreadAndLeave(time: nat, ghost d: L.Delta)
      requires sched.Valid() && sched.ring.at.Some?
      requires Chain(sleeping[..], first, d) && L.Distinct(d)
      requires cur < sleeping.Length && cur !in L.PidsOf(d)
      modifies this`first, this`cur, sleeping, sched, sched.tasks
      ensures sched.Valid() && sched.ring == old(sched.ring).Exit() && cur == sched.ring.Running()
      ensures Chain(sleeping[..], first, L.Insert(d, old(cur), time))
    {
      ThreadIntoDelta(time, d);
      cur := sched.Exit();
    }

    // The timer interrupt: loader_tick, then the switch to whom sched_tick names.
    method Timer()
      requires Valid()
      modifies this`first, this`cur, this`life, sleeping, sched, sched.tasks
      ensures old(L.Enabled(life, L.Tick))
      ensures Valid() && life == L.Next(old(life), L.Tick)
    {
      TickGoal(life, pcbs.Length);
      life := L.Next(life, L.Tick);
      WakeAndTick(old(life.sleepers), L.SleepersTick(old(life)).ring);
    }

    method WakeAndTick(ghost before: L.Delta, ghost goal: Ring)
      requires sched.Valid() && goal.Valid() && |goal.pids| <= sched.tasks.Length == sleeping.Length
      requires Chain(sleeping[..], first, before) && L.Distinct(before) && (before != [] ==> before[0].time > 0)
      requires goal == L.LoadAll(sched.ring, if before == [] then [] else L.Due(L.Closer(before)))
      modifies this`first, this`cur, sleeping, sched, sched.tasks
      ensures sched.Valid() && sched.ring == goal.Tick() && cur == sched.ring.Running()
      ensures Chain(sleeping[..], first, if before == [] then [] else L.NotDue(L.Closer(before)))
    {
      WakeSleepers(before, goal);
      cur := sched.Tick();
    }

    // loader_tick, on its way to the ring `goal`
    method WakeSleepers(ghost before: L.Delta, ghost goal: Ring)
      requires sched.Valid() && goal.Valid() && |goal.pids| <= sched.tasks.Length == sleeping.Length
      requires Chain(sleeping[..], first, before) && L.Distinct(before) && (before != [] ==> before[0].time > 0)
      requires goal == L.LoadAll(sched.ring, if before == [] then [] else L.Due(L.Closer(before)))
      modifies this`first, sleeping, sched, sched.tasks
      ensures sched.Valid() && sched.ring == goal
      ensures Chain(sleeping[..], first, if before == [] then [] else L.NotDue(L.Closer(before)))
    {
      if first == NONE {
        return;
      }
      CloserChain(sleeping[..], first, before);
      L.CloserByOne(before, IDLE);
      sleeping[first] := sleeping[first].(time := sleeping[first].time - 1);
      assert sleeping[..] == old(sleeping[..])[first := sleeping[first]];
      WakeDue(L.Closer(before), goal);
    }

    // The loop of loader_tick.
    method WakeDue(ghost due: L.Delta, ghost goal: Ring)
      requires sched.Valid() && goal.Valid() && |goal.pids| <= sched.tasks.Length
      requires Chain(sleeping[..], first, due) && L.Distinct(due)
      requires goal == L.LoadAll(sched.ring, L.Due(due))
      modifies this`first, sleeping, sched, sched.tasks
      ensures sched.Valid() && sched.ring == goal
      ensures Chain(sleeping[..], first, L.NotDue(due))
    {
      ghost var d := due;
      assert SleptAt(sleeping[..], d, 0);
      while first != NONE && sleeping[first].time == 0
        invariant sched.Valid() && L.Distinct(d) && Chain(sleeping[..], first, d)
        invariant d == [] <==> first == NONE
        invariant first != NONE ==> 0 <= first < sleeping.Length && sleeping[first].time == d[0].time
        invariant goal == L.LoadAll(sched.ring, L.Due(d)) && L.NotDue(due) == L.NotDue(d)
        decreases |d|
      {
        WakeFirst(d, goal);
        d := d[1..];
      }
    }

    // One round of it: the first sleeper is ready and off the queue.
    method WakeFirst(ghost d: L.Delta, ghost goal: Ring)
      requires sched.Valid() && goal.Valid() && |goal.pids| <= sched.tasks.Length
      requires Chain(sleeping[..], first, d) && L.Distinct(d) && d != [] && d[0].time == 0
      requires goal == L.LoadAll(sched.ring, L.Due(d))
      modifies this`first, sleeping, sched, sched.tasks
      ensures sched.Valid() && goal == L.LoadAll(sched.ring, L.Due(d[1..]))
      ensures Chain(sleeping[..], first, d[1..]) && (d[1..] == [] <==> first == NONE)
      ensures first != NONE ==> 0 <= first < sleeping.Length && sleeping[first].time == d[1..][0].time
    {
      assert SleptAt(sleeping[..], d, 0);
      FirstDue(sched.ring, d);
      Unblock(first, goal);
      ForgetFirst(d);
    }

    method ForgetFirst(ghost d: L.Delta)
      requires Chain(sleeping[..], first, d) && L.Distinct(d) && d != []
      modifies this`first, sleeping
      ensures Chain(sleeping[..], first, d[1..]) && (d[1..] == [] <==> first == NONE)
      ensures first != NONE ==> 0 <= first < sleeping.Length && sleeping[first].time == d[1..][0].time
    {
      DueChain(sleeping[..], first, d);
      sleeping[first] := sleeping[first].(id := NONE);
      assert sleeping[..] == old(sleeping[..])[first := sleeping[first]];
      first := sleeping[first].next;
      assert SleptAt(sleeping[..], d[1..], 0);
    }
  }

  // What comes next in a ring is not in it yet.
  lemma NextOfGoal(goal: Ring, ps: seq<Pid>, p: Pid)
    requires goal.Valid() && ps + [p] <= goal.pids
    ensures p !in ps && p != IDLE
  {
    var n := |ps|;
    assert goal.pids[n] == (ps + [p])[n] == p;
    forall i | 0 <= i < n ensures ps[i] != p {
      assert goal.Apart(i, n) && goal.pids[i] == (ps + [p])[i];
    }
  }

  lemma FirstDue(r: Ring, d: L.Delta)
    requires d != [] && d[0].time == 0
    ensures r.pids + [d[0].pid] <= L.LoadAll(r, L.Due(d)).pids
    ensures L.LoadAll(r.(pids := r.pids + [d[0].pid]), L.Due(d[1..])) == L.LoadAll(r, L.Due(d))
  {
    OneByOne(r.pids, d[0].pid, L.Due(d[1..]));
  }

  lemma OneByOne(s: seq<Pid>, p: Pid, rest: seq<Pid>)
    ensures s + ([p] + rest) == s + [p] + rest && s + [p] <= s + ([p] + rest)
  {
    assert s + ([p] + rest) == s + [p] + rest;
  }

  lemma StartIsRepresented(ps: seq<Pcb>, heads: seq<int>, sl: seq<Slept>, queueCount: nat)
    requires |heads| == queueCount && forall q :: 0 <= q < queueCount ==> heads[q] == NONE
    requires forall p :: 0 <= p < |ps| ==> ps[p].prev == NONE && ps[p].next == NONE
    ensures Represented(ps, heads, Start(queueCount).queues) && Chain(sl, NONE, []) && Reachable(Start(queueCount))
  {
    NothingQueued(Start(queueCount).queues);
    StartIsReachable(Start(queueCount));
  }

  lemma SleepersDiffer(l: L.Life)
    requires Reachable(l)
    ensures L.Distinct(l.sleepers) && (l.sleepers != [] ==> l.sleepers[0].time > 0)
  {
    ReachableInv(l);
    L.SleepersAreDistinct(l);
  }

  lemma TickGoal(l: L.Life, maxPid: nat)
    requires Reachable(l) && forall p :: p in l.live ==> p < maxPid
    ensures L.Enabled(l, L.Tick) && L.Distinct(l.sleepers)
    ensures L.SleepersTick(l).ring.Valid() && |L.SleepersTick(l).ring.pids| <= maxPid
    ensures L.SleepersTick(l).ring == L.LoadAll(l.ring, if l.sleepers == [] then [] else L.Due(L.Closer(l.sleepers)))
    ensures Reachable(L.Next(l, L.Tick))
    ensures L.Next(l, L.Tick) ==
              L.Life(L.SleepersTick(l).ring.Tick(), l.queues,
                     if l.sleepers == [] then [] else L.NotDue(L.Closer(l.sleepers)), l.live)
  {
    ReachableInv(l);
    L.SleepersAreDistinct(l);
    L.TickKeepsInv(l);
    L.RingFits(L.Next(l, L.Tick), maxPid);
    ReachableStep(l, L.Tick);
  }

  lemma InsertStep(d: L.Delta, k: nat, p: Pid, t: nat)
    requires k < |d| && d[k].time < t
    ensures d[..k] + L.Insert(d[k..], p, t) == d[..k + 1] + L.Insert(d[k + 1..], p, t - d[k].time)
  {
    assert d[k..][1..] == d[k + 1..];
  }

  lemma InsertStop(d: L.Delta, k: nat, p: Pid, t: nat)
    requires k <= |d| && (k < |d| ==> t <= d[k].time)
    ensures d[..k] + L.Insert(d[k..], p, t) == InsertAt(d, k, p, t)
  {
    if k < |d| {
      assert d[k..][1..] == d[k + 1..];
    }
  }

  // Links do not change when a process starts or ends.
  lemma SameLinks(ps: seq<Pcb>, ps': seq<Pcb>, heads: seq<int>, queues: seq<seq<Pid>>)
    requires Represented(ps, heads, queues) && |ps'| == |ps|
    requires forall r {:trigger ps'[r]} :: 0 <= r < |ps| ==> ps'[r].prev == ps[r].prev && ps'[r].next == ps[r].next
    ensures Represented(ps', heads, queues)
  {
    forall q: nat ensures QueueAt(ps', heads, queues, q) {
      assert QueueAt(ps, heads, queues, q);
      if q < |queues| {
        forall i: nat ensures LinkedAt(ps', queues[q], i) {
          assert LinkedAt(ps, queues[q], i);
        }
      }
    }
  }
}
