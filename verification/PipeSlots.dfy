// pipe_open's choice of endpoints (kernel/pipe.c).
module PipeSlots {
  import opened Common

  // An endpoint of the table: whether it is in use, and the slot of its pair.
  datatype Slot = Slot(open: bool, pair: int)

  // The first free endpoint from position i on.
  function FirstClosed(s: seq<Slot>, i: nat): (r: nat)
    ensures r <= |s| || r == i
    ensures i <= r && (r < |s| ==> !s[r].open)
    ensures forall k :: i <= k < r && k < |s| ==> s[k].open
    decreases |s| - i
  {
    if i >= |s| || !s[i].open then i else FirstClosed(s, i + 1)
  }

  // The first two free endpoints become a pair.
  function Joined(s: seq<Slot>, read: nat, write: nat): seq<Slot>
    requires read < |s| && write < |s|
  {
    s[read := Slot(true, write)][write := Slot(true, read)]
  }

  ghost predicate Mutual(s: seq<Slot>, i: nat)
    requires i < |s|
  {
    s[i].open ==> 0 <= s[i].pair < |s| && s[i].pair != i && s[s[i].pair].pair == i
  }

  // An open endpoint and its pair name each other.
  ghost predicate Paired(s: seq<Slot>) {
    forall i: nat :: i < |s| ==> Mutual(s, i)
  }

  // An open endpoint whose pair was closed still needs it.
  ghost predicate Needed(s: seq<Slot>, r: nat) {
    exists i :: 0 <= i < |s| && s[i].open && s[i].pair == r
  }

  /** Reusing two free endpoints keeps the pairing exactly when no endpoint
      that is still open belongs to one of them. */
  lemma JoinKeepsPairingIff(s: seq<Slot>, read: nat, write: nat)
    requires Paired(s) && read < |s| && write < |s| && read != write && !s[read].open && !s[write].open
    ensures Paired(Joined(s, read, write)) <==> !Needed(s, read) && !Needed(s, write)
  {
    var s' := Joined(s, read, write);
    if !Needed(s, read) && !Needed(s, write) {
      forall i: nat | i < |s'| ensures Mutual(s', i) {
        assert Mutual(s, i);
      }
    } else {
      var r := if Needed(s, read) then read else write;
      var i :| 0 <= i < |s| && s[i].open && s[i].pair == r;
      assert Mutual(s, i);
      assert s'[i] == s[i] && s'[r].pair != i;
      assert !Mutual(s', i);
    }
  }

  // A read end is closed and its slot goes to a new pipe: the writer left
  // behind has a pair that is not its own.
  lemma ReuseBreaksPairing()
    ensures var s := Joined([Slot(false, -1), Slot(false, -1), Slot(false, -1)], 0, 1);
            var t := s[0 := s[0].(open := false)];
            && Paired(t) && FirstClosed(t, 0) == 0 && FirstClosed(t, 1) == 2
            && Joined(t, 0, 2)[1] == Slot(true, 0) && Joined(t, 0, 2)[0].pair == 2
            && !Paired(Joined(t, 0, 2))
  {
    var t := [Slot(false, 1), Slot(true, 0), Slot(false, -1)];
    assert Joined([Slot(false, -1), Slot(false, -1), Slot(false, -1)], 0, 1)[0 := Slot(false, 1)] == t;
    assert Mutual(t, 0) && Mutual(t, 1) && Mutual(t, 2);
    assert FirstClosed(t, 1) == FirstClosed(t, 2) == 2;
    assert !Mutual(Joined(t, 0, 2), 1);
  }

  class Endpoints {
    const slots: array<Slot>

    // pipe_init
    constructor (maxEndpoints: nat)
      ensures slots.Length == maxEndpoints && fresh(slots)
      ensures forall i :: 0 <= i < slots.Length ==> !slots[i].open
    {
      slots := new Slot[maxEndpoints](_ => Slot(false, -1));
    }

    // pipe_open, as far as the table goes; `page` is what mm_mem_kalloc answers.
    // None is -ENOMEM.
    method Open(page: Option<nat>) returns (r: Option<(nat, nat)>)
      modifies slots
      ensures var s := old(slots[..]);
              var read := FirstClosed(s, 0);
              var write := FirstClosed(s, read + 1);
              if write < |s| && page.Some? then
                && r == Some((read, write)) && slots[..] == Joined(s, read, write)
                && slots[read] == Slot(true, write) && slots[write] == Slot(true, read)
                && forall i :: 0 <= i < |s| && i != read && i != write ==> slots[i] == s[i]
              else r == None && slots[..] == s
    {
      var read, write, i, done := -1, -1, 0, false;
      ghost var s := slots[..];
      while i < slots.Length
        invariant 0 <= i <= slots.Length && !done
        invariant read == -1 ==> FirstClosed(s, 0) == FirstClosed(s, i)
        invariant read != -1 ==> 0 <= read < i && read == FirstClosed(s, 0) && FirstClosed(s, read + 1) == FirstClosed(s, i)
      {
        if !slots[i].open {
          if read < 0 {
            read := i;
          } else {
            write := i;
            done := true;
            break;
          }
        }
        i := i + 1;
      }
      if !done || page.None? {
        return None;
      }
      slots[read] := Slot(true, write);
      slots[write] := Slot(true, read);
      r := Some((read, write));
    }
  }
}
