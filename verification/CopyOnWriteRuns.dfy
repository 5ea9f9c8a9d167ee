// Concrete runs in which copy-on-write memory does not keep its promise. They
// all start from one process with one private page.
module CopyOnWriteRuns {
  import opened Common
  import opened Paging
  import opened CopyOnWrite

  const V: VPage := FIRST_USER

  function Blank(): Page {
    seq(PAGE_SIZE, _ => 0)
  }

  // Process 1 has page V in frame 100; frames 101 to 104 are free.
  function Start(): State {
    State(map[1 := map[V := Mapped(100, true)]],
          map[100 := Blank(), 101 := Blank(), 102 := Blank(), 103 := Blank(), 104 := Blank()],
          {100}, map[1 := V + 1])
  }

  // It forks process 2.
  function Forked(): State {
    ForkOf(Start(), 1, 2, 101, Blank())
  }

  const FORK := Fork(1, 2, 101, Blank())

  lemma StartIsInitial()
    ensures Initial(Start()) && Enabled(Start(), FORK) && Next(Start(), FORK) == Forked()
    ensures forall p, v :: Start().At(p, v) == if p == 1 && v == V then Mapped(100, true) else ZERO
  {
  }

  lemma ForkedEntries()
    ensures Forked().space.Keys == {1, 2} && Forked().used == {100, 101} && Forked().mem.Keys == {100, 101, 102, 103, 104}
    ensures Forked().next.Keys == {1, 2} && Forked().mem[100] == Blank() && Inv(Forked())
    ensures forall p, v :: Forked().At(p, v) ==
              if (p == 1 || p == 2) && v == V then Mapped(100, true).(cor := true, rw := false)
              else if p == 2 && v == KSTACK then Mapped(101, false) else ZERO
  {
    StartIsInitial();
    InitialHasInv(Start());
    ForkEntries(Start(), 1, 2, 101, Blank());
    ForkKeepsInv(Start(), 1, 2, 101, Blank());
  }

  // A run of these steps ends in state s.
  ghost predicate Reaches(acts: seq<Action>, s: State) {
    exists ss :: RunTo(ss, acts, s)
  }

  lemma Extend(acts: seq<Action>, s: State, a: Action)
    requires Reaches(acts, s) && Enabled(s, a)
    ensures Reaches(acts + [a], Next(s, a))
  {
    var ss :| RunTo(ss, acts, s);
    RunOn(ss, acts, s, a);
  }

  lemma ForkedRun()
    ensures Reaches([FORK], Forked())
  {
    StartIsInitial();
    assert RunTo([Start()], [], Start());
    Extend([], Start(), FORK);
    assert [] + [FORK] == [FORK];
  }

  // The parent stores to the page and gets a copy of its own in frame 102.
  const PARENT_FAULT := Fault(1, V, true, Some(102))

  ghost function Copied(): State {
    ForkedEntries();
    PageFault(Forked(), 1, V, Some(102))
  }

  lemma CopiedEntries()
    ensures Enabled(Forked(), PARENT_FAULT) && Next(Forked(), PARENT_FAULT) == Copied() && Inv(Copied())
    ensures Copied().space.Keys == {1, 2} && Copied().next.Keys == {1, 2} && Copied().used == {100, 101, 102}
    ensures Copied().mem.Keys == {100, 101, 102, 103, 104}
    ensures forall p, v :: Copied().At(p, v) == if p == 1 && v == V then Mapped(102, true) else Forked().At(p, v)
  {
    ForkedEntries();
    assert Forked().HeldElsewhere(1, V) by { assert Forked().At(2, V).p; }
    var s1 := Forked().(mem := Forked().mem[102 := Forked().mem[100]], used := {100, 101, 102});
    assert forall p, v :: s1.At(p, v) == Forked().At(p, v);
    FaultKeepsInv(Forked(), 1, V, Some(102));
  }

  lemma ChildIsSoleOwner()
    ensures SoleOwner(Copied(), 2, V) && Copied().HeldElsewhere(2, V) && Copied().At(2, V).p && IsToBeCopiedOnWrite(Copied().At(2, V))
    ensures Copied().At(2, V).base == 100
  {
    ForkedEntries();
    CopiedEntries();
    assert Copied().At(1, V).p;
  }

  lemma CopiedRun()
    ensures Reaches([FORK] + [PARENT_FAULT], Copied())
  {
    ForkedRun();
    CopiedEntries();
    Extend([FORK], Forked(), PARENT_FAULT);
  }

  /** fork, a store by the parent, a store by the child: the child was alone on
      frame 100, which stays allocated although nobody has it any more. */
  lemma LastOwnerLeaks() returns (s: State)
    ensures Reaches([FORK] + [PARENT_FAULT] + [Fault(2, V, true, Some(103))], s)
    ensures SoleOwner(Copied(), 2, V) && Copied().At(2, V).base == 100 && Orphan(s, 100)
  {
    var a := Fault(2, V, true, Some(103));
    ForkedEntries();
    CopiedEntries();
    ChildIsSoleOwner();
    CopiedRun();
    Extend([FORK] + [PARENT_FAULT], Copied(), a);
    LastOwnerLeaksIff(Copied(), 2, V, 103);
    s := Next(Copied(), a);
  }

  // The same when the sole owner exits.
  lemma TeardownLeaks() returns (s: State)
    ensures Reaches([FORK] + [PARENT_FAULT] + [Exit(2)], s)
    ensures SoleOwner(Copied(), 2, V) && Copied().At(2, V).base == 100 && Orphan(s, 100)
  {
    ForkedEntries();
    CopiedEntries();
    ChildIsSoleOwner();
    CopiedRun();
    Extend([FORK] + [PARENT_FAULT], Copied(), Exit(2));
    TeardownLeaksIff(Copied(), 2, V);
    s := Next(Copied(), Exit(2));
  }

  /** fork and a system call that stores into the parent's buffer: the child
      reads the 7 that was meant for the parent. */
  lemma KernelStoreIsSeenByChild() returns (s: State)
    ensures Reaches([FORK] + [KernelWrite(1, V, 0, 7)], s)
    ensures Fetch(Forked(), 2, V, 0) == Some(0) && Fetch(s, 2, V, 0) == Some(7)
  {
    var a := KernelWrite(1, V, 0, 7);
    ForkedEntries();
    ForkedRun();
    Extend([FORK], Forked(), a);
    StoreIsSeen(Forked(), 1, V, 0, 7, 2);
    s := Next(Forked(), a);
  }

  // The parent shares the page, still marked, and forks process 3.
  const SHARE := Share(1, V, Some(102))
  const FORK3 := Fork(1, 3, 102, Blank())

  ghost function Shared(): State {
    ForkedEntries();
    ShareOf(Forked(), 1, V, Some(102))
  }

  ghost function ForkedAgain(): State {
    ForkedEntries();
    ForkOf(Shared(), 1, 3, 102, Blank())
  }

  lemma SharedEntries()
    ensures Enabled(Forked(), SHARE) && Next(Forked(), SHARE) == Shared() && Placed(Shared())
    ensures Shared().space.Keys == {1, 2} && Shared().next.Keys == {1, 2}
    ensures Shared().used == {100, 101} && Shared().mem == Forked().mem
    ensures Shared().At(1, V) == Mapped(100, true).(cor := true, rw := false, shared := true)
    ensures Shared().At(2, V) == Mapped(100, true).(cor := true, rw := false)
  {
    ForkedEntries();
    ShareKeepsPlaced(Forked(), 1, V, Some(102));
  }

  lemma ForkedAgainEntries()
    ensures Enabled(Forked(), SHARE) && Next(Forked(), SHARE) == Shared()
    ensures Enabled(Shared(), FORK3) && Next(Shared(), FORK3) == ForkedAgain() && Placed(ForkedAgain())
    ensures ForkedAgain().space.Keys == {1, 2, 3} && ForkedAgain().next.Keys == {1, 2, 3}
    ensures ForkedAgain().used == {100, 101, 102} && ForkedAgain().mem.Keys == {100, 101, 102, 103, 104}
    ensures ForkedAgain().mem[100] == Blank()
    ensures ForkedAgain().At(1, V) == Mapped(100, true).(cor := true, rw := false, shared := true)
    ensures ForkedAgain().At(2, V) == Mapped(100, true).(cor := true, rw := false)
    ensures ForkedAgain().At(3, V) == Mapped(100, true).(shared := true)
  {
    ForkedEntries();
    SharedEntries();
    ThirdProcess(Shared());
  }

  lemma ThirdProcess(s: State)
    requires Placed(s) && 1 in s.space && 1 in s.next && 3 !in s.space && CanReturn(s, Some(102))
    ensures Placed(ForkOf(s, 1, 3, 102, Blank()))
    ensures forall q :: ForkOf(s, 1, 3, 102, Blank()).At(q, V) ==
              if q == 1 then ForkedParent(s.At(1, V)) else if q == 3 then ForkedChild(s.At(1, V)) else s.At(q, V)
  {
    ForkEntries(s, 1, 3, 102, Blank());
    ForkKeepsPlaced(s, 1, 3, 102, Blank());
  }

  lemma ForkedAgainRun()
    ensures Reaches([FORK] + [SHARE] + [FORK3], ForkedAgain())
  {
    ForkedRun();
    ForkedAgainEntries();
    Extend([FORK], Forked(), SHARE);
    Extend([FORK] + [SHARE], Shared(), FORK3);
  }

  const PARENT_FAULT3 := Fault(1, V, true, Some(103))

  ghost function CopiedAgain(): State {
    ForkedAgainEntries();
    PageFault(ForkedAgain(), 1, V, Some(103))
  }

  lemma CopiedAgainEntries()
    ensures Enabled(ForkedAgain(), PARENT_FAULT3) && Next(ForkedAgain(), PARENT_FAULT3) == CopiedAgain()
    ensures CopiedAgain().At(1, V) == Mapped(103, true) && CopiedAgain().At(3, V) == Mapped(100, true).(shared := true)
    ensures 1 in CopiedAgain().space && 1 in CopiedAgain().next && 103 in CopiedAgain().mem && 100 in CopiedAgain().mem
    ensures CopiedAgain().mem[100] == Blank()
  {
    ForkedAgainEntries();
    var s := ForkedAgain();
    assert s.HeldElsewhere(1, V) by { assert s.At(2, V).p; }
    var s1 := s.(mem := s.mem[103 := s.mem[100]], used := s.used + {103});
    assert s1.At(3, V) == s.At(3, V);
  }

  lemma CopiedAgainRun()
    ensures Reaches([FORK] + [SHARE] + [FORK3] + [PARENT_FAULT3], CopiedAgain())
  {
    CopiedAgainEntries();
    ForkedAgainRun();
    Extend([FORK] + [SHARE] + [FORK3], ForkedAgain(), PARENT_FAULT3);
  }

  const STORE := Write(1, V, 0, 7)

  /** What the parent stores into the page it shared, the child it shared it
      with does not see: the parent's store takes the copy-on-write path. */
  lemma SharedPageIsNotShared() returns (s: State)
    ensures Reaches([FORK] + [SHARE] + [FORK3] + [PARENT_FAULT3] + [STORE], s)
    ensures Fetch(s, 1, V, 0) == Some(7) && Fetch(s, 3, V, 0) == Some(0)
  {
    CopiedAgainRun();
    s := StoredByParent();
    Extend([FORK] + [SHARE] + [FORK3] + [PARENT_FAULT3], CopiedAgain(), STORE);
  }

  lemma StoredByParent() returns (s: State)
    ensures Enabled(CopiedAgain(), STORE) && s == Next(CopiedAgain(), STORE)
    ensures Fetch(s, 1, V, 0) == Some(7) && Fetch(s, 3, V, 0) == Some(0)
  {
    CopiedAgainEntries();
    StoreIsSeen(CopiedAgain(), 1, V, 0, 7, 3);
    s := Poke(CopiedAgain(), 1, V, 0, 7);
  }

  // Who sees a store into p's page.
  lemma StoreIsSeen(s: State, p: Pid, v: VPage, off: nat, b: bv8, q: Pid)
    requires s.At(p, v).p && s.At(p, v).base in s.mem && s.At(q, v).p && s.At(q, v).base in s.mem && off < PAGE_SIZE
    ensures Fetch(Poke(s, p, v, off, b), p, v, off) == Some(b)
    ensures Fetch(Poke(s, p, v, off, b), q, v, off) == if s.At(q, v).base == s.At(p, v).base then Some(b) else Fetch(s, q, v, off)
  {
    var s' := Poke(s, p, v, off, b);
    assert s'.At(p, v) == s.At(p, v) && s'.At(q, v) == s.At(q, v);
  }

  // And what this child stores, process 2 finds in a page of its own.
  lemma ChildStoreChangesPrivatePage() returns (s: State)
    ensures Reaches([FORK] + [SHARE] + [FORK3] + [Write(3, V, 0, 7)], s)
    ensures !ForkedAgain().At(2, V).shared && Fetch(ForkedAgain(), 2, V, 0) == Some(0) && Fetch(s, 2, V, 0) == Some(7)
  {
    var a := Write(3, V, 0, 7);
    ForkedAgainEntries();
    ForkedAgainRun();
    Extend([FORK] + [SHARE] + [FORK3], ForkedAgain(), a);
    StoreIsSeen(ForkedAgain(), 3, V, 0, 7, 2);
    s := Next(ForkedAgain(), a);
  }

  // --- a process that loads a program after a fork ----------------------------------

  // The stacks of process 3 and its one page.
  function Image(): map<VPage, Frame> {
    map[KSTACK := 102, USTACK := 103, V := 104]
  }

  function Contents(): map<Frame, Page> {
    map[102 := Blank(), 104 := Blank()]
  }

  const LOAD := LoadBy(1, 3, Image(), Contents(), V + 1)

  ghost function AfterLoad(): State {
    ForkedEntries();
    RestoreOf(LoadOf(Forked(), 3, Image(), Contents(), V + 1), 1)
  }

  lemma ImageIsFresh()
    ensures FreshImage(Forked(), Image(), Contents())
  {
    ForkedEntries();
    assert Image()[KSTACK] == 102 && Image()[USTACK] == 103 && Image()[V] == 104;
    forall v, w {:trigger OwnFrame(Image(), v, w)} ensures OwnFrame(Image(), v, w) {}
    forall v {:trigger FreshPage(Forked(), Image(), v)} ensures FreshPage(Forked(), Image(), v) {}
  }

  lemma AfterLoadEntries()
    ensures Enabled(Forked(), LOAD) && Next(Forked(), LOAD) == AfterLoad()
    ensures AfterLoad().At(1, V) == Mapped(100, true) && AfterLoad().At(2, V) == Forked().At(2, V)
    ensures 1 in AfterLoad().space && 1 in AfterLoad().next && 100 in AfterLoad().mem
  {
    ForkedEntries();
    ImageIsFresh();
    LoadEntries(Forked(), 3, Image(), Contents(), V + 1);
  }

  /** fork, and the parent loads a program: its first page comes back writable,
      and the child reads what it stores there. */
  lemma LoadingParentWritesToChild() returns (s: State)
    ensures Reaches([FORK] + [LOAD] + [Write(1, V, 0, 7)], s)
    ensures Fetch(Forked(), 2, V, 0) == Some(0) && Fetch(s, 2, V, 0) == Some(7)
  {
    var a := Write(1, V, 0, 7);
    ForkedEntries();
    ForkedRun();
    AfterLoadEntries();
    Extend([FORK], Forked(), LOAD);
    Extend([FORK] + [LOAD], AfterLoad(), a);
    StoreIsSeen(AfterLoad(), 1, V, 0, 7, 2);
    s := Next(AfterLoad(), a);
  }
}
