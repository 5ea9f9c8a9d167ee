// kernel/sem.c: a semaphore that hands its tokens to those that wait, in order.
module KernelSemaphore {
  import opened Common
  import R = RunRing

  type Pid = R.Pid

  datatype Event = Wait(p: Pid) | Signal

  // The processes that came, in order, and how many tokens there ever were.
  function Arrivals(es: seq<Event>): seq<Pid> {
    if es == [] then []
    else
      var e := es[|es| - 1];
      Arrivals(es[..|es| - 1]) + if e.Wait? then [e.p] else []
  }

  function Signals(es: seq<Event>): nat {
    if es == [] then 0 else Signals(es[..|es| - 1]) + if es[|es| - 1].Signal? then 1 else 0
  }

  datatype State = State(vl: nat, q: seq<Pid>, passed: seq<Pid>)

  // sem_wait and sem_signal; `passed` are those that went on, in order.
  function Next(s: State, e: Event): State {
    match e
    case Wait(p) => if s.vl == 0 then s.(q := s.q + [p]) else s.(vl := s.vl - 1, passed := s.passed + [p])
    case Signal => if s.q == [] then s.(vl := s.vl + 1) else s.(q := s.q[1..], passed := s.passed + [s.q[0]])
  }

  function Run(initial: nat, es: seq<Event>): State {
    if es == [] then State(initial, [], []) else Next(Run(initial, es[..|es| - 1]), es[|es| - 1])
  }

  /** First come, first served, and no token is lost: those that went on are the
      first of all that came, as many as there were tokens; the others wait in
      order, and tokens are left only when nobody waits. */
  lemma {:induction false} FirstComeFirstServed(initial: nat, es: seq<Event>)
    ensures var s, all := Run(initial, es), Arrivals(es);
            var k := Min(|all|, initial + Signals(es));
            s.passed == all[..k] && s.q == all[k..] && s.vl == initial + Signals(es) - k
  {
    if es != [] {
      var n := |es| - 1;
      FirstComeFirstServed(initial, es[..n]);
      ServeNext(Run(initial, es[..n]), es[n], Arrivals(es[..n]), initial + Signals(es[..n]));
    }
  }

  lemma ServeNext(s: State, e: Event, all: seq<Pid>, tokens: nat)
    requires var k := Min(|all|, tokens); s == State(tokens - k, all[k..], all[..k])
    ensures var all' := all + if e.Wait? then [e.p] else [];
            var tokens' := tokens + if e.Signal? then 1 else 0;
            var k' := Min(|all'|, tokens');
            Next(s, e) == State(tokens' - k', all'[k'..], all'[..k'])
  {
    if e.Signal? && tokens < |all| {
      assert all[..tokens + 1] == all[..tokens] + [all[tokens]];
    }
  }

  class Semaphore {
    var vl: nat
    var q: seq<Pid>
    var ready: seq<Pid>          // whom loader_unqueue readied, in order
    ghost var passed: seq<Pid>

    ghost function S(): State
      reads this
    {
      State(vl, q, passed)
    }

    constructor (initial: nat)
      ensures S() == Run(initial, []) && ready == []
    {
      vl, q, ready, passed := initial, [], [], [];
    }

    // sem_wait; whether the process goes on at once
    method Wait(p: Pid) returns (through: bool)
      modifies this
      ensures S() == Next(old(S()), Event.Wait(p)) && ready == old(ready) && (through <==> old(vl) > 0)
    {
      if vl == 0 {
        q := q + [p];
        through := false;
      } else {
        vl := vl - 1;
        passed := passed + [p];
        through := true;
      }
    }

    // sem_signal
    method Signal()
      modifies this
      ensures S() == Next(old(S()), Event.Signal)
      ensures ready == old(ready) + if old(q) == [] then [] else [old(q)[0]]
    {
      if q == [] {
        vl := vl + 1;
      } else {
        ready := ready + [q[0]];
        passed := passed + [q[0]];
        q := q[1..];
      }
    }

    // sem_broadcast
    method Broadcast()
      modifies this
      ensures q == [] && vl == 0 && ready == old(ready) + old(q) && passed == old(passed) + old(q)
    {
      while q != []
        invariant ready + q == old(ready) + old(q) && passed + q == old(passed) + old(q)
        decreases |q|
      {
        ready := ready + [q[0]];
        passed := passed + [q[0]];
        q := q[1..];
      }
      vl := 0;
    }
  }
}
