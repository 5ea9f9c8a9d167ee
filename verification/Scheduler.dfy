// kernel/sched.c: a circular doubly linked list threaded through the array
// `tasks`. Pointers are slot numbers, -1 for NULL.
module Scheduler {
  import opened Common
  import opened RunRing

  const NULL: int := -1
  const FREE_PID: int := -1

  datatype Node = Node(pd: int, quantum: nat, next: int, prev: int)

  const CLEARED := Node(FREE_PID, 0, NULL, NULL)

  // The slots of `order`, in this order, form a circular doubly linked list.
  ghost predicate Circular(tasks: seq<Node>, order: seq<nat>) {
    && (forall i :: 0 <= i < |order| ==> order[i] < |tasks|)
    && (forall i {:trigger Linked(tasks, order, i)} :: 0 <= i < |order| - 1 ==> Linked(tasks, order, i))
    && (order != [] ==> tasks[order[|order| - 1]].next == order[0] && tasks[order[0]].prev == order[|order| - 1])
  }

  ghost predicate Linked(tasks: seq<Node>, order: seq<nat>, i: int)
    requires 0 <= i < |order| - 1 && order[i] < |tasks| && order[i + 1] < |tasks|
  {
    tasks[order[i]].next == order[i + 1] && tasks[order[i + 1]].prev == order[i]
  }

  // A slot is on the list exactly when it holds a pid; no pid is there twice.
  ghost predicate Occupied(tasks: seq<Node>, order: seq<nat>) {
    && (forall i :: 0 <= i < |order| ==> order[i] < |tasks| && tasks[order[i]].pd > IDLE)
    && (forall i, j {:trigger Different(tasks, order, i, j)} :: 0 <= i < j < |order| ==> Different(tasks, order, i, j))
    && (forall s :: 0 <= s < |tasks| && tasks[s].pd != FREE_PID ==> s in order)
  }

  ghost predicate Different(tasks: seq<Node>, order: seq<nat>, i: int, j: int)
    requires 0 <= i < j < |order| && order[i] < |tasks| && order[j] < |tasks|
  {
    order[i] != order[j] && tasks[order[i]].pd != tasks[order[j]].pd
  }

  lemma Distinct(tasks: seq<Node>, order: seq<nat>, i: nat, j: nat)
    requires Occupied(tasks, order) && i < |order| && j < |order| && i != j
    ensures order[i] != order[j] && tasks[order[i]].pd != tasks[order[j]].pd
  {
    assert if i < j then Different(tasks, order, i, j) else Different(tasks, order, j, i);
  }

  ghost function Pids(tasks: seq<Node>, order: seq<nat>): (ps: seq<Pid>)
    requires Occupied(tasks, order)
    ensures |ps| == |order| && forall i :: 0 <= i < |ps| ==> ps[i] == tasks[order[i]].pd
  {
    seq(|order|, i requires 0 <= i < |order| => tasks[order[i]].pd)
  }

  // What sched_load does to the array when it links slot i in after the last one.
  ghost predicate Appended(before: seq<Node>, after: seq<Node>, order: seq<nat>, i: nat, pd: Pid) {
    && |after| == |before| && i < |before| && (forall k :: 0 <= k < |order| ==> order[k] < |before|)
    && after[i] == (if order == [] then Node(pd, QUANTUM, i, i) else Node(pd, QUANTUM, order[0], order[|order| - 1]))
    && forall s {:trigger after[s]} :: 0 <= s < |before| && s != i ==>
         && after[s].pd == before[s].pd && after[s].quantum == before[s].quantum
         && after[s].next == (if order != [] && s == order[|order| - 1] then i else before[s].next)
         && after[s].prev == (if order != [] && s == order[0] then i else before[s].prev)
  }

  lemma AppendOccupied(before: seq<Node>, after: seq<Node>, order: seq<nat>, i: nat, pd: Pid)
    requires Occupied(before, order) && Appended(before, after, order, i, pd)
    requires before[i].pd == FREE_PID && pd != IDLE && pd !in Pids(before, order)
    ensures Occupied(after, order + [i])
    ensures Pids(after, order + [i]) == Pids(before, order) + [pd]
  {
    var order' := order + [i];
    forall k | 0 <= k < |order| ensures order'[k] == order[k] != i && after[order[k]].pd == before[order[k]].pd != pd {
      assert Pids(before, order)[k] != pd;
    }
    forall a, b | 0 <= a < b < |order'| ensures Different(after, order', a, b) {
      if b < |order| {
        Distinct(before, order, a, b);
      }
    }
    forall s | 0 <= s < |after| && after[s].pd != FREE_PID ensures s in order' {
      assert order'[|order|] == i;
      if s != i {
        var k :| 0 <= k < |order| && order[k] == s;
        assert order'[k] == s;
      }
    }
  }

  lemma AppendCircular(before: seq<Node>, after: seq<Node>, order: seq<nat>, i: nat, pd: Pid)
    requires Circular(before, order) && Occupied(before, order) && Appended(before, after, order, i, pd)
    requires before[i].pd == FREE_PID
    ensures Circular(after, order + [i])
  {
    var order' := order + [i];
    forall k | 0 <= k < |order'| - 1 ensures Linked(after, order', k) {
      if k < |order| - 1 {
        assert Linked(before, order, k);
        Distinct(before, order, k, |order| - 1);
        Distinct(before, order, 0, k + 1);
      }
    }
  }

  // The scheduler's variables agree with the list and with the position of `actual`.
  ghost predicate Coherent(tasks: seq<Node>, order: seq<nat>, at: Option<nat>, actual: int, first: int, last: int, running: int) {
    && Circular(tasks, order) && Occupied(tasks, order)
    && running == |order|
    && first == (if order == [] then NULL else order[0])
    && last == (if order == [] then NULL else order[|order| - 1])
    && (at.Some? ==> at.value < |order| && actual == order[at.value] && tasks[actual].quantum <= QUANTUM)
    && (at.None? ==> actual == NULL)
    && (forall i :: 0 <= i < |order| && at != Some(i) ==> tasks[order[i]].quantum == QUANTUM)
  }

  ghost function RingOf(tasks: seq<Node>, order: seq<nat>, at: Option<nat>): (r: Ring)
    requires Occupied(tasks, order) && (at.Some? ==> at.value < |order| && tasks[order[at.value]].quantum <= QUANTUM)
    ensures r.Valid()
  {
    assert forall i, j :: 0 <= i < j < |order| ==> Pids(tasks, order)[i] != Pids(tasks, order)[j] by {
      forall i, j | 0 <= i < j < |order| ensures Pids(tasks, order)[i] != Pids(tasks, order)[j] {
        Distinct(tasks, order, i, j);
      }
    }
    Ring(Pids(tasks, order), at, if at.None? then 0 else tasks[order[at.value]].quantum)
  }

  lemma RunningIsActual(tasks: seq<Node>, order: seq<nat>, at: Option<nat>, actual: int, first: int, last: int, running: int, ring: Ring)
    requires Coherent(tasks, order, at, actual, first, last, running) && ring == RingOf(tasks, order, at) && at.Some?
    ensures 0 <= actual < |tasks| && ring.Running() == tasks[actual].pd
  {}

  lemma AppendCoherent(before: seq<Node>, after: seq<Node>, order: seq<nat>, at: Option<nat>, i: nat, pd: Pid,
                       actual: int, first: int, last: int, running: int)
    requires Coherent(before, order, at, actual, first, last, running) && Appended(before, after, order, i, pd)
    requires before[i].pd == FREE_PID && pd != IDLE && pd !in Pids(before, order)
    ensures Coherent(after, order + [i], at, actual, if order == [] then i else first, i, running + 1)
    ensures RingOf(after, order + [i], at) == RingOf(before, order, at).Load(pd)
  {
    AppendOccupied(before, after, order, i, pd);
    AppendCircular(before, after, order, i, pd);
    var order' := order + [i];
    assert forall k :: 0 <= k < |order| ==> order'[k] == order[k] != i;
  }

  class Scheduler {
    const tasks: array<Node>
    var actual: int
    var first: int
    var last: int
    var running: int
    ghost var order: seq<nat>     // the slots in `next` order from `first`
    ghost var at: Option<nat>     // the position of `actual` in it
    ghost var ring: Ring          // what they amount to

    ghost predicate Valid()
      reads this, tasks
    {
      var valid := Coherent(tasks[..], order, at, actual, first, last, running) && ring == RingOf(tasks[..], order, at);
      valid
    }

    // sched_init
    constructor (maxPid: nat)
      ensures Valid() && ring == Ring([], None, 0) && tasks.Length == maxPid && fresh(tasks)
    {
      tasks := new Node[maxPid](_ => CLEARED);
      actual, first, last, running := NULL, NULL, NULL, 0;
      order, at := [], None;
      ring := Ring([], None, 0);
    }

    // The search for a free slot in sched_load; the source asserts there is one.
    method FreeSlot() returns (i: nat)
      requires exists s :: 0 <= s < tasks.Length && tasks[s].pd == FREE_PID
      ensures i < tasks.Length && tasks[i].pd == FREE_PID
    {
      i := 0;
      while tasks[i].pd != FREE_PID
        invariant i < tasks.Length
        invariant forall s :: 0 <= s < i ==> tasks[s].pd != FREE_PID
        decreases tasks.Length - i
      {
        i := i + 1;
      }
    }

    // sched_load
    method Load(pd: Pid)
      requires Valid() && pd != IDLE && pd !in ring.pids
      requires exists s :: 0 <= s < tasks.Length && tasks[s].pd == FREE_PID
      modifies this, tasks
      ensures Valid() && ring == old(ring).Load(pd)
    {
      var i := FreeSlot();
      LinkAfterLast(i, pd);
      order, ring := order + [i], ring.Load(pd);
      AppendCoherent(old(tasks[..]), tasks[..], old(order), at, i, pd, actual, old(first), old(last), old(running));
    }

    // The pointer updates of sched_load.
    method LinkAfterLast(i: nat, pd: Pid)
      requires Valid() && i < tasks.Length && tasks[i].pd == FREE_PID
      modifies this`first, this`last, this`running, tasks
      ensures Appended(old(tasks[..]), tasks[..], order, i, pd)
      ensures first == (if order == [] then i else old(first)) && last == i && running == old(running) + 1
    {
      if running == 0 {
        tasks[i] := Node(pd, QUANTUM, i, i);
        last := i;
        first := i;
      } else {
        assert order[0] != i && order[|order| - 1] != i;
        LinkOnto(i, pd);
      }
      tasks[first] := tasks[first].(prev := last);
      running := running + 1;
    }

    // The part of it for a list that is not empty.
    method LinkOnto(i: nat, pd: Pid)
      requires Valid() && order != [] && i < tasks.Length && i != first && i != last
      modifies this`last, tasks
      ensures last == i && tasks[i] == Node(pd, QUANTUM, first, old(last))
      ensures forall s :: 0 <= s < tasks.Length && s != i ==>
                && tasks[s].pd == old(tasks[s].pd) && tasks[s].quantum == old(tasks[s].quantum)
                && tasks[s].next == (if s == old(last) then i else old(tasks[s].next))
                && (s != first ==> tasks[s].prev == old(tasks[s].prev))
    {
      if |order| > 1 {
        Neighbours(tasks[..], order, |order| - 1);
        Distinct(tasks[..], order, |order| - 2, |order| - 1);
      }
      tasks[i] := Node(pd, QUANTUM, first, last);
      tasks[last] := tasks[last].(next := i);
      if tasks[last].prev == last {
        tasks[last] := tasks[last].(prev := i);
      }
      last := i;
    }

    // sched_exit, which sched_block also is: `actual` leaves, its successor runs.
    method Exit() returns (pd: int)
      requires Valid() && at.Some?
      modifies this, tasks
      ensures Valid() && ring == old(ring).Exit() && pd == ring.Running()
    {
      if running > 1 {
        pd := LeaveOthers();
      } else {
        pd := LeaveNobody();
      }
    }

    method LeaveOthers() returns (pd: int)
      requires Valid() && at.Some? && running > 1
      modifies this, tasks
      ensures Valid() && ring == old(ring).Exit() && pd == ring.Running()
    {
      ghost var was, slots, i, a, f, l, r := tasks[..], order, at.value, actual, first, last, running;
      UnlinkActual();
      order, at, ring := Without(slots, i), Some(if i + 1 < |slots| then i else 0), ring.Exit();
      LeftOne(was, tasks[..], slots, i, a, f, l, r, old(ring), order, at, actual, first, last, running, ring);
      RunningIsActual(tasks[..], order, at, actual, first, last, running, ring);
      pd := tasks[actual].pd;
    }

    method LeaveNobody() returns (pd: int)
      requires Valid() && at.Some? && running <= 1
      modifies this, tasks
      ensures Valid() && ring == old(ring).Exit() && pd == ring.Running()
    {
      order, at, ring := [], None, ring.Exit();
      tasks[actual] := CLEARED;
      first, last, actual := NULL, NULL, NULL;
      running := running - 1;
      pd := 0;
      RemoveLast(old(tasks[..]), tasks[..], old(order), old(actual), old(first), old(last));
    }

    // The pointer updates of sched_exit when other tasks remain.
    method UnlinkActual()
      requires Valid() && at.Some? && running > 1
      modifies this`first, this`last, this`actual, this`running, tasks
      ensures Removed(old(tasks[..]), tasks[..], order, at.value)
      ensures actual == After(order, at.value) && running == old(running) - 1
      ensures first == (if at.value == 0 then After(order, 0) else old(first))
      ensures last == (if at.value == |order| - 1 then Before(order, |order| - 1) else old(last))
    {
      Neighbours(tasks[..], order, at.value);
      if at.value != 0 {
        Distinct(tasks[..], order, 0, at.value);
      }
      if at.value != |order| - 1 {
        Distinct(tasks[..], order, at.value, |order| - 1);
      }
      if tasks[first].pd == tasks[actual].pd {
        first := tasks[actual].next;
      }
      if tasks[last].pd == tasks[actual].pd {
        last := tasks[actual].prev;
      }
      var next, prev := tasks[actual].next, tasks[actual].prev;
      tasks[prev] := tasks[prev].(next := next);
      tasks[next] := tasks[next].(prev := prev);
      tasks[actual] := CLEARED;
      actual := next;
      running := running - 1;
    }

    // sched_tick
    method Tick() returns (pd: int)
      requires Valid()
      modifies this, tasks
      ensures Valid() && ring == old(ring).Tick() && pd == ring.Running()
    {
      if actual == NULL {
        pd := LeaveIdle();
      } else {
        pd := TickActual();
      }
    }

    // What is known of the running task.
    lemma Current()
      requires Valid()
      ensures actual == NULL <==> at.None?
      ensures ring.at == at && |ring.pids| == |order|
      ensures at.Some? ==> 0 <= actual < tasks.Length && tasks[actual].pd == ring.Running() && tasks[actual].quantum == ring.quantum
    {
    }

    // `actual` has a quantum tick less, or hands over.
    method TickActual() returns (pd: int)
      requires Valid() && actual != NULL
      modifies this`actual, this`at, this`ring, tasks
      ensures Valid() && ring == old(ring).Tick() && pd == ring.Running()
    {
      Current();
      if tasks[actual].quantum > 0 {
        SetQuantum(tasks[actual].quantum - 1);
      } else {
        HandOver();
      }
      Current();
      pd := tasks[actual].pd;
    }

    method HandOver()
      requires Valid() && at.Some? && ring.quantum == 0
      modifies this`actual, this`at, this`ring, tasks
      ensures Valid() && ring == old(ring).Tick() && at.Some?
    {
      Current();
      SetQuantum(QUANTUM);
      Advance();
    }

    // Nobody ran: the first task does, if there is one.
    method LeaveIdle() returns (pd: int)
      requires Valid() && actual == NULL
      modifies this`actual, this`at, this`ring
      ensures Valid() && ring == old(ring).Tick() && pd == ring.Running()
    {
      if running <= 0 {
        pd := 0;
      } else {
        at, ring := Some(0), ring.Tick();
        actual := first;
        pd := tasks[actual].pd;
      }
    }

    // actual = actual->next, once its quantum is full again
    method Advance()
      requires Valid() && at.Some? && ring.quantum == QUANTUM
      modifies this`actual, this`at, this`ring
      ensures Valid() && ring == old(ring).(at := Some(if old(at).value + 1 < |order| then old(at).value + 1 else 0))
      ensures at.Some?
    {
      Current();
      Neighbours(tasks[..], order, at.value);
      at := Some(if at.value + 1 < |order| then at.value + 1 else 0);
      ring := ring.(at := at);
      actual := tasks[actual].next;
    }

    // The quantum of `actual` is written; the list stays as it is.
    method SetQuantum(q: nat)
      requires Valid() && at.Some? && q <= QUANTUM
      modifies this`ring, tasks
      ensures Valid() && ring == old(ring).(quantum := q)
    {
      ring := ring.(quantum := q);
      tasks[actual] := tasks[actual].(quantum := q);
      QuantumCoherent(old(tasks[..]), tasks[..], order, at.value, actual, first, last, running, q);
    }
  }

  function Without(order: seq<nat>, i: nat): (rest: seq<nat>)
    requires i < |order|
    ensures |rest| == |order| - 1
    ensures forall k {:trigger rest[k]} :: 0 <= k < |rest| ==> rest[k] == order[Skip(i, k)]
  {
    order[..i] + order[i + 1..]
  }

  // Where position k was before position i went.
  function Skip(i: nat, k: nat): nat {
    if k < i then k else k + 1
  }

  function After(order: seq<nat>, i: nat): nat
    requires i < |order|
  {
    order[if i + 1 < |order| then i + 1 else 0]
  }

  function Before(order: seq<nat>, i: nat): nat
    requires i < |order|
  {
    order[if i > 0 then i - 1 else |order| - 1]
  }

  lemma Neighbours(tasks: seq<Node>, order: seq<nat>, i: nat)
    requires Circular(tasks, order) && i < |order|
    ensures tasks[order[i]].next == After(order, i) && tasks[order[i]].prev == Before(order, i)
  {
    assert i + 1 < |order| ==> Linked(tasks, order, i);
    assert i > 0 ==> Linked(tasks, order, i - 1);
  }

  // What sched_exit does to the array when it unlinks the task at position i.
  ghost predicate Removed(before: seq<Node>, after: seq<Node>, order: seq<nat>, i: nat) {
    && |after| == |before| && i < |order| && order[i] < |after| && after[order[i]] == CLEARED
    && forall s {:trigger after[s]} :: 0 <= s < |before| && s != order[i] ==>
         && after[s].pd == before[s].pd && after[s].quantum == before[s].quantum
         && after[s].next == (if s == Before(order, i) then After(order, i) else before[s].next)
         && after[s].prev == (if s == After(order, i) then Before(order, i) else before[s].prev)
  }

  lemma RemoveOccupied(before: seq<Node>, after: seq<Node>, order: seq<nat>, i: nat)
    requires Occupied(before, order) && Removed(before, after, order, i)
    ensures Occupied(after, Without(order, i))
    ensures Pids(after, Without(order, i)) == Pids(before, order)[..i] + Pids(before, order)[i + 1..]
  {
    var order' := Without(order, i);
    forall k | 0 <= k < |order'|
      ensures order'[k] == order[Skip(i, k)] && order'[k] < |after| && after[order'[k]].pd == before[order'[k]].pd
    {
      Distinct(before, order, i, Skip(i, k));
    }
    forall a, b | 0 <= a < b < |order'| ensures Different(after, order', a, b) {
      Distinct(before, order, Skip(i, a), Skip(i, b));
    }
    forall s | 0 <= s < |after| && after[s].pd != FREE_PID ensures s in order' {
      var k :| 0 <= k < |order| && order[k] == s;
      assert order'[if k < i then k else k - 1] == s;
    }
  }

  // The position before i, and the one after.
  function Pred(n: nat, i: nat): int {
    if i > 0 then i - 1 else n - 1
  }

  function Succ(n: nat, i: nat): nat {
    if i + 1 < n then i + 1 else 0
  }

  // The neighbours without position i, around which the list closes.
  lemma NeighboursWithout(order: seq<nat>, i: nat, k: nat)
    requires i < |order| && k < |order| - 1
    ensures After(Without(order, i), k) == if Skip(i, k) == Pred(|order|, i) then After(order, i) else After(order, Skip(i, k))
    ensures Before(Without(order, i), k) == if Skip(i, k) == Succ(|order|, i) then Before(order, i) else Before(order, Skip(i, k))
  {}

  lemma SamePosition(tasks: seq<Node>, order: seq<nat>, i: nat, j: nat)
    requires Occupied(tasks, order) && i < |order| && j < |order|
    ensures order[i] == order[j] <==> i == j
  {
    if i != j {
      Distinct(tasks, order, i, j);
    }
  }

  // The links of the task now at position k: around the one that left.
  lemma RemainingLinks(before: seq<Node>, after: seq<Node>, order: seq<nat>, i: nat, k: nat)
    requires Circular(before, order) && Occupied(before, order) && Removed(before, after, order, i)
    requires k < |order| - 1
    ensures var s, order' := order[Skip(i, k)], Without(order, i);
            s == order'[k] && after[s].next == After(order', k) && after[s].prev == Before(order', k)
  {
    var n, x := |order|, Skip(i, k);
    Neighbours(before, order, x);
    NeighboursWithout(order, i, k);
    SamePosition(before, order, i, x);
    SamePosition(before, order, x, Pred(n, i));
    SamePosition(before, order, x, Succ(n, i));
  }

  lemma RemoveCircular(before: seq<Node>, after: seq<Node>, order: seq<nat>, i: nat)
    requires Circular(before, order) && Occupied(before, order) && Removed(before, after, order, i)
    ensures Circular(after, Without(order, i))
  {
    var order' := Without(order, i);
    forall k | 0 <= k < |order'| - 1 ensures Linked(after, order', k) {
      RemainingLinks(before, after, order, i, k);
      RemainingLinks(before, after, order, i, k + 1);
    }
    if order' != [] {
      RemainingLinks(before, after, order, i, 0);
      RemainingLinks(before, after, order, i, |order'| - 1);
    }
  }

  // Everybody but `actual` has a full quantum, and so has its successor.
  lemma RemainingQuanta(before: seq<Node>, after: seq<Node>, order: seq<nat>, i: nat, k: nat)
    requires Occupied(before, order) && Removed(before, after, order, i) && k < |order| - 1
    requires forall j :: 0 <= j < |order| && j != i ==> before[order[j]].quantum == QUANTUM
    ensures Without(order, i)[k] < |after| && after[Without(order, i)[k]].quantum == QUANTUM
  {
    Distinct(before, order, i, Skip(i, k));
    assert Without(order, i)[k] == order[Skip(i, k)];
  }

  lemma RemoveCoherent(before: seq<Node>, after: seq<Node>, order: seq<nat>, i: nat,
                       actual: int, first: int, last: int, running: int)
    requires Coherent(before, order, Some(i), actual, first, last, running) && Removed(before, after, order, i)
    requires |order| > 1
    ensures Coherent(after, Without(order, i), Some(if i + 1 < |order| then i else 0), After(order, i),
                     if i == 0 then After(order, 0) else first,
                     if i == |order| - 1 then Before(order, |order| - 1) else last, running - 1)
  {
    RemoveOccupied(before, after, order, i);
    RemoveCircular(before, after, order, i);
    var order' := Without(order, i);
    forall k | 0 <= k < |order'| ensures after[order'[k]].quantum == QUANTUM {
      RemainingQuanta(before, after, order, i, k);
    }
    assert order'[0] == order[Skip(i, 0)] && order'[|order'| - 1] == order[Skip(i, |order'| - 1)];
  }

  lemma RemoveRing(before: seq<Node>, after: seq<Node>, order: seq<nat>, i: nat,
                   actual: int, first: int, last: int, running: int)
    requires Coherent(before, order, Some(i), actual, first, last, running) && Removed(before, after, order, i)
    requires |order| > 1
    requires Occupied(after, Without(order, i))
    requires var at' := if i + 1 < |order| then i else 0; after[Without(order, i)[at']].quantum == QUANTUM
    ensures RingOf(after, Without(order, i), Some(if i + 1 < |order| then i else 0)) == RingOf(before, order, Some(i)).Exit()
  {
    RemoveOccupied(before, after, order, i);
    ExitOf(RingOf(before, order, Some(i)), Pids(after, Without(order, i)), i);
  }

  lemma ExitOf(ring: Ring, rest: seq<Pid>, i: nat)
    requires ring.Valid() && ring.at == Some(i) && |ring.pids| > 1 && rest == ring.pids[..i] + ring.pids[i + 1..]
    ensures ring.Exit() == Ring(rest, Some(if i + 1 < |ring.pids| then i else 0), QUANTUM)
  {}

  lemma RemoveOne(before: seq<Node>, after: seq<Node>, order: seq<nat>, i: nat,
                  actual: int, first: int, last: int, running: int, ring: Ring)
    requires Coherent(before, order, Some(i), actual, first, last, running) && Removed(before, after, order, i)
    requires |order| > 1 && ring == RingOf(before, order, Some(i))
    ensures var at' := Some(if i + 1 < |order| then i else 0);
            && Coherent(after, Without(order, i), at', After(order, i),
                        if i == 0 then After(order, 0) else first,
                        if i == |order| - 1 then Before(order, |order| - 1) else last, running - 1)
            && RingOf(after, Without(order, i), at') == ring.Exit()
  {
    RemainingQuanta(before, after, order, i, if i + 1 < |order| then i else 0);
    RemoveCoherent(before, after, order, i, actual, first, last, running);
    RemoveRing(before, after, order, i, actual, first, last, running);
  }

  // The same, as the fields are then.
  lemma LeftOne(before: seq<Node>, after: seq<Node>, order: seq<nat>, i: nat, actual: int, first: int, last: int, running: int, ring: Ring,
                order': seq<nat>, at': Option<nat>, actual': int, first': int, last': int, running': int, ring': Ring)
    requires Coherent(before, order, Some(i), actual, first, last, running) && Removed(before, after, order, i)
    requires |order| > 1 && ring == RingOf(before, order, Some(i)) && ring' == ring.Exit()
    requires order' == Without(order, i) && at' == Some(if i + 1 < |order| then i else 0)
    requires actual' == After(order, i) && running' == running - 1
    requires first' == (if i == 0 then After(order, 0) else first)
    requires last' == (if i == |order| - 1 then Before(order, |order| - 1) else last)
    ensures Coherent(after, order', at', actual', first', last', running') && ring' == RingOf(after, order', at')
  {
    RemoveOne(before, after, order, i, actual, first, last, running, ring);
  }

  lemma RemoveLast(before: seq<Node>, after: seq<Node>, order: seq<nat>, actual: int, first: int, last: int)
    requires Coherent(before, order, Some(0), actual, first, last, 1) && after == before[actual := CLEARED]
    ensures Coherent(after, [], None, NULL, NULL, NULL, 0)
    ensures RingOf(after, [], None) == RingOf(before, order, Some(0)).Exit()
  {
    forall s | 0 <= s < |after| ensures after[s].pd == FREE_PID {
      assert before[s].pd != FREE_PID ==> s in order;
    }
  }

  lemma QuantumCoherent(before: seq<Node>, after: seq<Node>, order: seq<nat>, i: nat,
                        actual: int, first: int, last: int, running: int, q: nat)
    requires Coherent(before, order, Some(i), actual, first, last, running) && q <= QUANTUM
    requires after == before[actual := before[actual].(quantum := q)]
    ensures Coherent(after, order, Some(i), actual, first, last, running)
    ensures RingOf(after, order, Some(i)) == RingOf(before, order, Some(i)).(quantum := q)
  {
    forall k | 0 <= k < |order| - 1 ensures Linked(after, order, k) {
      assert Linked(before, order, k);
    }
    forall a, b | 0 <= a < b < |order| ensures Different(after, order, a, b) {
      Distinct(before, order, a, b);
    }
    forall k | 0 <= k < |order| && k != i ensures order[k] != actual {
      Distinct(before, order, k, i);
    }
  }
}
