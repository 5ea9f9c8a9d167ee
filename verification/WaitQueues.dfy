// FIFO wait queues threaded through the PCBs (kernel/loader.c): each PCB has
// one pair of links, and a queue is the pid at its head. -1 is "no pid".
module WaitQueues {
  import opened RunRing
  import opened Lifecycle

  const NONE: int := -1     // FREE_PCB_PID and FREE_QUEUE

  // The links of a PCB; `live` is `id != FREE_PCB_PID`.
  datatype Pcb = Pcb(live: bool, prev: int, next: int)

  function Head(s: seq<Pid>): int {
    if s == [] then NONE else s[0]
  }

  // The PCB at position i of a queue points to its neighbours.
  ghost predicate LinkedAt(ps: seq<Pcb>, s: seq<Pid>, i: nat) {
    i < |s| ==>
      && s[i] < |ps|
      && ps[s[i]].next == (if i + 1 < |s| then s[i + 1] else NONE)
      && ps[s[i]].prev == (if i > 0 then s[i - 1] else NONE)
  }

  ghost predicate Linked(ps: seq<Pcb>, s: seq<Pid>) {
    forall i: nat {:trigger LinkedAt(ps, s, i)} :: LinkedAt(ps, s, i)
  }

  ghost predicate QueueAt(ps: seq<Pcb>, heads: seq<int>, queues: seq<seq<Pid>>, q: nat) {
    q < |queues| && q < |heads| ==> heads[q] == Head(queues[q]) && Linked(ps, queues[q])
  }

  // Nobody is in two queues, or twice in one.
  ghost predicate Once(queues: seq<seq<Pid>>, a: nat, i: nat, b: nat, j: nat) {
    a < |queues| && b < |queues| && i < |queues[a]| && j < |queues[b]| && queues[a][i] == queues[b][j] ==> a == b && i == j
  }

  ghost predicate AllOnce(queues: seq<seq<Pid>>) {
    forall a: nat, i: nat, b: nat, j: nat {:trigger Once(queues, a, i, b, j)} :: Once(queues, a, i, b, j)
  }

  ghost predicate Queued(queues: seq<seq<Pid>>, p: Pid) {
    p in Flatten(queues)
  }

  // The heads and links of all queues; whoever waits nowhere has no links.
  ghost predicate Represented(ps: seq<Pcb>, heads: seq<int>, queues: seq<seq<Pid>>) {
    && |heads| == |queues| && AllOnce(queues)
    && (forall q: nat {:trigger QueueAt(ps, heads, queues, q)} :: QueueAt(ps, heads, queues, q))
    && (forall p: nat {:trigger Queued(queues, p)} :: p < |ps| && !Queued(queues, p) ==> ps[p].prev == NONE && ps[p].next == NONE)
  }

  lemma {:induction false} InFlatten(queues: seq<seq<Pid>>, q: nat, i: nat)
    requires q < |queues| && i < |queues[q]|
    ensures queues[q][i] in Flatten(queues)
  {
    if q > 0 {
      InFlatten(queues[1..], q - 1, i);
    }
  }

  // --- the two operations, on the links ----------------------------------------------------

  // loader_enqueue's writes: the process goes after the last member, if there is one.
  lemma Append(ps: seq<Pcb>, heads: seq<int>, queues: seq<seq<Pid>>, q: nat, p: Pid, ps': seq<Pcb>, heads': seq<int>)
    requires Represented(ps, heads, queues) && q < |queues| && p < |ps| && !Queued(queues, p)
    requires |ps'| == |ps| && heads' == heads[q := Head(queues[q] + [p])]
    requires forall r {:trigger ps'[r]} :: 0 <= r < |ps| ==>
               if r == p then ps'[r] == ps[r].(prev := if queues[q] == [] then NONE else queues[q][|queues[q]| - 1])
               else if queues[q] != [] && r == queues[q][|queues[q]| - 1] then ps'[r] == ps[r].(next := p)
               else ps'[r] == ps[r]
    ensures Represented(ps', heads', queues[q := queues[q] + [p]])
  {
    var s, queues' := queues[q], queues[q := queues[q] + [p]];
    assert QueueAt(ps, heads, queues, q);
    forall a: nat ensures QueueAt(ps', heads', queues', a) {
      if a < |queues'| {
        assert QueueAt(ps, heads, queues, a);
        forall i: nat ensures LinkedAt(ps', queues'[a], i) {
          AppendLink(ps, queues, q, p, ps', a, i);
        }
      }
    }
    forall a: nat, i: nat, b: nat, j: nat ensures Once(queues', a, i, b, j) {
      AppendOnce(queues, q, p, a, i, b, j);
    }
    forall r: nat {:trigger Queued(queues', r)} | r < |ps'| && !Queued(queues', r) ensures ps'[r].prev == NONE && ps'[r].next == NONE {
      AppendQueued(queues, q, p, r);
      assert !Queued(queues, r);
      if s != [] {
        InFlatten(queues, q, |s| - 1);
      }
    }
  }

  lemma AppendLink(ps: seq<Pcb>, queues: seq<seq<Pid>>, q: nat, p: Pid, ps': seq<Pcb>, a: nat, i: nat)
    requires AllOnce(queues) && q < |queues| && a < |queues| && p < |ps| && !Queued(queues, p) && |ps'| == |ps|
    requires Linked(ps, queues[a]) && Linked(ps, queues[q])
    requires forall r {:trigger ps'[r]} :: 0 <= r < |ps| ==>
               if r == p then ps'[r] == ps[r].(prev := if queues[q] == [] then NONE else queues[q][|queues[q]| - 1])
               else if queues[q] != [] && r == queues[q][|queues[q]| - 1] then ps'[r] == ps[r].(next := p)
               else ps'[r] == ps[r]
    requires ps[p].next == NONE && ps[p].prev == NONE
    ensures LinkedAt(ps', queues[q := queues[q] + [p]][a], i)
  {
    var s := queues[q];
    if i < |queues[a]| {
      assert LinkedAt(ps, queues[a], i);
      InFlatten(queues, a, i);
      if s != [] {
        assert Once(queues, a, i, q, |s| - 1);
      }
    }
  }

  lemma AppendOnce(queues: seq<seq<Pid>>, q: nat, p: Pid, a: nat, i: nat, b: nat, j: nat)
    requires AllOnce(queues) && q < |queues| && !Queued(queues, p)
    ensures Once(queues[q := queues[q] + [p]], a, i, b, j)
  {
    assert Once(queues, a, i, b, j);
    if a < |queues| && i < |queues[a]| {
      InFlatten(queues, a, i);
    }
    if b < |queues| && j < |queues[b]| {
      InFlatten(queues, b, j);
    }
  }

  lemma AppendQueued(queues: seq<seq<Pid>>, q: nat, p: Pid, r: Pid)
    requires q < |queues|
    ensures Queued(queues[q := queues[q] + [p]], r) <==> r == p || Queued(queues, r)
  {
    FlattenUpdate(queues, q, queues[q] + [p], r);
  }

  // loader_unqueue's writes: the head leaves and has no links any more.
  lemma Pop(ps: seq<Pcb>, heads: seq<int>, queues: seq<seq<Pid>>, q: nat, ps': seq<Pcb>, heads': seq<int>)
    requires Represented(ps, heads, queues) && q < |queues| && queues[q] != []
    requires |ps'| == |ps| && heads' == heads[q := Head(queues[q][1..])]
    requires forall r {:trigger ps'[r]} :: 0 <= r < |ps| ==> ps'[r] == Unlinked(queues[q], ps[r], r)
    ensures Represented(ps', heads', queues[q := queues[q][1..]])
  {
    var s, queues' := queues[q], queues[q := queues[q][1..]];
    assert QueueAt(ps, heads, queues, q) && LinkedAt(ps, s, 0);
    forall a: nat ensures QueueAt(ps', heads', queues', a) {
      if a < |queues'| {
        assert QueueAt(ps, heads, queues, a);
        forall i: nat ensures LinkedAt(ps', queues'[a], i) {
          PopLink(ps, queues, q, ps', a, i);
        }
      }
    }
    forall a: nat, i: nat, b: nat, j: nat ensures Once(queues', a, i, b, j) {
      assert Once(queues, a, if a == q then i + 1 else i, b, if b == q then j + 1 else j);
    }
    forall r: nat {:trigger Queued(queues', r)} | r < |ps'| && !Queued(queues', r) ensures ps'[r].prev == NONE && ps'[r].next == NONE {
      PopQueued(queues, q, r);
      assert LinkedAt(ps, s, 0) && (!Queued(queues, r) || r == s[0]);
    }
  }

  // A PCB once the head of queue s has left it.
  function Unlinked(s: seq<Pid>, pcb: Pcb, r: int): Pcb
    requires s != []
  {
    if |s| > 1 && r == s[0] then pcb.(next := NONE)
    else if |s| > 1 && r == s[1] then pcb.(prev := NONE)
    else pcb
  }

  lemma PopLink(ps: seq<Pcb>, queues: seq<seq<Pid>>, q: nat, ps': seq<Pcb>, a: nat, i: nat)
    requires AllOnce(queues) && q < |queues| && a < |queues| && queues[q] != [] && |ps'| == |ps|
    requires Linked(ps, queues[a])
    requires forall r {:trigger ps'[r]} :: 0 <= r < |ps| ==> ps'[r] == Unlinked(queues[q], ps[r], r)
    ensures LinkedAt(ps', queues[q := queues[q][1..]][a], i)
  {
    var k := if a == q then i + 1 else i;
    if k < |queues[a]| {
      assert LinkedAt(ps, queues[a], k);
      assert Once(queues, a, k, q, 0);
      if |queues[q]| > 1 {
        assert Once(queues, a, k, q, 1);
      }
    }
  }

  lemma PopQueued(queues: seq<seq<Pid>>, q: nat, r: Pid)
    requires q < |queues| && queues[q] != []
    ensures Queued(queues, r) ==> r == queues[q][0] || Queued(queues[q := queues[q][1..]], r)
  {
    FlattenUpdate(queues, q, queues[q][1..], r);
    assert queues[q] == [queues[q][0]] + queues[q][1..];
  }

  // --- the delta queue, threaded through `sleeping` ---------------------------------------------

  datatype Slept = Slept(id: int, time: nat, next: int)

  function PidAt(d: Delta, i: nat): int {
    if i < |d| then d[i].pid else NONE
  }

  ghost predicate SleptAt(sl: seq<Slept>, d: Delta, i: nat) {
    i < |d| ==> d[i].pid < |sl| && sl[d[i].pid] == Slept(d[i].pid, d[i].time, PidAt(d, i + 1))
  }

  ghost predicate Chain(sl: seq<Slept>, first: int, d: Delta) {
    first == PidAt(d, 0) && forall i: nat {:trigger SleptAt(sl, d, i)} :: SleptAt(sl, d, i)
  }

  lemma {:induction false} InPids(d: Delta, i: nat)
    requires i < |d|
    ensures d[i].pid in PidsOf(d)
  {
    if i > 0 {
      InPids(d[1..], i - 1);
    }
  }

  lemma {:induction false} PidsDiffer(d: Delta, i: nat, j: nat)
    requires Distinct(d) && i < |d| && j < |d| && i != j
    ensures d[i].pid != d[j].pid
  {
    if i > 0 && j > 0 {
      PidsDiffer(d[1..], i - 1, j - 1);
    } else {
      InPids(d[1..], i + j - 1);
    }
  }

  // What loader_sleep writes once its walk stopped before position k.
  ghost predicate Inserted(sl: seq<Slept>, sl': seq<Slept>, d: Delta, k: nat, p: Pid, t: nat) {
    && k <= |d| && |sl'| == |sl| && p < |sl|
    && (k < |d| ==> t <= d[k].time)
    && sl'[p] == Slept(p, t, PidAt(d, k))
    && forall r {:trigger sl'[r]} :: 0 <= r < |sl| && r != p ==>
         && sl'[r].id == sl[r].id
         && sl'[r].next == (if k > 0 && r == d[k - 1].pid then p else sl[r].next)
         && sl'[r].time == (if k < |d| && r == d[k].pid then d[k].time - t else sl[r].time)
  }

  // The queue once p went before position k.
  function InsertAt(d: Delta, k: nat, p: Pid, t: nat): Delta
    requires k <= |d| && (k < |d| ==> t <= d[k].time)
  {
    d[..k] + [Sleeper(p, t)] + if k < |d| then [Sleeper(d[k].pid, d[k].time - t)] + d[k + 1..] else []
  }

  lemma InsertedChain(sl: seq<Slept>, first: int, d: Delta, k: nat, p: Pid, t: nat, sl': seq<Slept>)
    requires Chain(sl, first, d) && Distinct(d) && p !in PidsOf(d) && Inserted(sl, sl', d, k, p, t)
    ensures Chain(sl', if k == 0 then p else first, InsertAt(d, k, p, t))
  {
    assert forall i: nat :: SleptAt(sl, d, i);
    forall i: nat ensures SleptAt(sl', InsertAt(d, k, p, t), i) {
      if i < k {
        InsertedBefore(sl, d, k, p, t, sl', i);
      } else if k < i <= |d| {
        InsertedAfter(sl, d, k, p, t, sl', i);
      }
    }
  }

  // The entries before the new one, and those after it.
  lemma {:induction false} InsertedBefore(sl: seq<Slept>, d: Delta, k: nat, p: Pid, t: nat, sl': seq<Slept>, i: nat)
    requires Distinct(d) && p !in PidsOf(d) && Inserted(sl, sl', d, k, p, t) && SleptAt(sl, d, i) && i < k
    ensures SleptAt(sl', InsertAt(d, k, p, t), i)
  {
    InPids(d, i);
    if k < |d| { PidsDiffer(d, i, k); }
    if i != k - 1 { PidsDiffer(d, i, k - 1); }
  }

  lemma {:induction false} InsertedAfter(sl: seq<Slept>, d: Delta, k: nat, p: Pid, t: nat, sl': seq<Slept>, i: nat)
    requires Distinct(d) && p !in PidsOf(d) && Inserted(sl, sl', d, k, p, t) && k < i <= |d| && SleptAt(sl, d, i - 1)
    ensures SleptAt(sl', InsertAt(d, k, p, t), i)
  {
    InPids(d, i - 1);
    if i - 1 != k { PidsDiffer(d, i - 1, k); }
    if k > 0 { PidsDiffer(d, i - 1, k - 1); }
  }

  // loader_tick's writes: the head is closer; a head that is due leaves.
  lemma CloserChain(sl: seq<Slept>, first: int, d: Delta)
    requires Chain(sl, first, d) && Distinct(d) && d != [] && d[0].time > 0
    ensures 0 <= first < |sl| && sl[first].time > 0
    ensures Chain(sl[first := sl[first].(time := sl[first].time - 1)], first, Closer(d))
  {
    assert SleptAt(sl, d, 0);
    var sl' := sl[first := sl[first].(time := sl[first].time - 1)];
    forall i: nat ensures SleptAt(sl', Closer(d), i) {
      assert SleptAt(sl, d, i);
      if 0 < i < |d| { PidsDiffer(d, i, 0); }
    }
  }

  lemma DueChain(sl: seq<Slept>, first: int, d: Delta)
    requires Chain(sl, first, d) && Distinct(d) && d != []
    ensures 0 <= first < |sl| && sl[first].time == d[0].time
    ensures Chain(sl[first := sl[first].(id := NONE)], sl[first].next, d[1..])
  {
    assert SleptAt(sl, d, 0);
    var sl' := sl[first := sl[first].(id := NONE)];
    forall i: nat ensures SleptAt(sl', d[1..], i) {
      assert SleptAt(sl, d, i + 1);
      if i + 1 < |d| { PidsDiffer(d, i + 1, 0); }
    }
  }
}
