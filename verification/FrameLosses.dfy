// Which frames the copy-on-write memory loses: allocated, but mapped nowhere, so
// that nothing ever gives them back.
module FrameLosses {
  import opened Common
  import opened Paging
  import opened CopyOnWrite

  // The page of the frame is taken from its process: that ends, or copies it.
  ghost predicate Gives(s: State, a: Action, v: VPage)
    requires Enabled(s, a)
  {
    a.p !in Next(s, a).space || (a.Fault? && a.v == v && s.At(a.p, v).p)
  }

  /** p alone maps frame f, and another process has some other frame at that address. */
  ghost predicate LastAmongOthers(s: State, p: Pid, v: VPage, f: Frame) {
    s.At(p, v).p && s.At(p, v).base == f && SoleOwner(s, p, v) && exists q :: q != p && s.At(q, v).p
  }

  ghost predicate Loses(s: State, a: Action, f: Frame)
    requires Enabled(s, a)
  {
    exists v :: LastAmongOthers(s, a.p, v, f) && Gives(s, a, v)
  }

  // f is allocated and mapped as before.
  lemma SameOrphan(s: State, s': State, f: Frame)
    requires f in s.used <==> f in s'.used
    requires forall p, v :: s'.At(p, v).p && s'.At(p, v).base == f <==> s.At(p, v).p && s.At(p, v).base == f
    ensures Orphan(s', f) <==> Orphan(s, f)
  {
  }

  lemma ExitLosesIff(s: State, p: Pid, f: Frame)
    requires Placed(s) && p in s.space
    ensures Orphan(ExitOf(s, p), f) <==> Orphan(s, f) || exists v :: LastAmongOthers(s, p, v, f)
  {
    var s' := ExitOf(s, p);
    ExitKeepsPlaced(s, p);
    if v :| s.At(p, v).p && s.At(p, v).base == f {
      TeardownLeaksIff(s, p, v);
      MappedOnlyAt(s, p, v);
      assert forall w :: LastAmongOthers(s, p, w, f) ==> w == v;
      assert LastAmongOthers(s, p, v, f) <==> Orphan(s', f);
      assert !Orphan(s, f);
    } else {
      TeardownKeeps(s, p, f);
      SameOrphan(s, s', f);
    }
  }

  lemma TeardownKeeps(s: State, p: Pid, f: Frame)
    requires Placed(s) && p in s.space && forall v :: s.At(p, v).p ==> s.At(p, v).base != f
    ensures f in ExitOf(s, p).used <==> f in s.used
  {
    assert forall v :: ReleasedAt(s, p, v) ==> s.At(p, v).base != f;
  }

  // A page that was not mapped gets a frame that was free.
  lemma AllocateLosesNone(s: State, p: Pid, v: VPage, g: Frame, us: bool, f: Frame)
    requires Placed(s) && p in s.space && CanReturn(s, Some(g)) && !s.At(p, v).p
    ensures Orphan(Allocate(s, p, v, Some(g), us), f) <==> Orphan(s, f)
  {
    var s1 := s.(used := s.used + {g});
    assert forall q, w :: s1.At(q, w) == s.At(q, w);
    var s' := Allocate(s, p, v, Some(g), us);
    assert s'.At(p, v).base == g;
    if f != g {
      SameOrphan(s, s', f);
    }
  }

  // The process ends, and with it all of its pages.
  lemma EndLosesIff(s: State, a: Action, f: Frame)
    requires Placed(s) && Enabled(s, a) && Next(s, a) == ExitOf(s, a.p)
    ensures Orphan(Next(s, a), f) <==> Orphan(s, f) || Loses(s, a, f)
  {
    ExitLosesIff(s, a.p, f);
    assert a.p !in Next(s, a).space;
    forall v | LastAmongOthers(s, a.p, v, f) ensures Loses(s, a, f) {
      assert Gives(s, a, v);
    }
  }

  // A page that is mapped no more elsewhere is copied nevertheless.
  lemma CopyLosesIff(s: State, p: Pid, v: VPage, write: bool, g: Frame, f: Frame)
    requires Placed(s) && Enabled(s, Fault(p, v, write, Some(g))) && s.At(p, v).p && IsToBeCopiedOnWrite(s.At(p, v))
    ensures var a := Fault(p, v, write, Some(g)); Orphan(Next(s, a), f) <==> Orphan(s, f) || Loses(s, a, f)
  {
    var a, s', e := Fault(p, v, write, Some(g)), PageFault(s, p, v, Some(g)), s.At(p, v);
    LastOwnerLeaksIff(s, p, v, g);
    FaultCopiesIff(s, p, v, g);
    FaultChangesOnePage(s, p, v, Some(g));
    assert s'.space.Keys == s.space.Keys;
    if f == e.base {
      assert LastAmongOthers(s, p, v, f) ==> Gives(s, a, v);
      forall w | LastAmongOthers(s, p, w, f) ensures w == v {
        MappedOnlyAt(s, p, v);
      }
      assert !Orphan(s, f);
    } else {
      forall w | LastAmongOthers(s, p, w, f) ensures !Gives(s, a, w) {}
      assert f == g ==> !Orphan(s', f) || s'.At(p, v).base == e.base;
      assert f != g ==> (f in s.used <==> f in s'.used);
      CopiedElsewhere(s, s', p, v, g, f);
    }
  }

  lemma CopiedElsewhere(s: State, s': State, p: Pid, v: VPage, g: Frame, f: Frame)
    requires s.At(p, v).p && f != s.At(p, v).base && g !in s.used && s'.At(p, v).p
    requires forall q, w :: !(q == p && w == v) ==> s'.At(q, w) == s.At(q, w)
    requires if s'.At(p, v).base == s.At(p, v).base then s'.used == s.used else s'.At(p, v).base == g && s'.used == s.used + {g}
    ensures Orphan(s', f) <==> Orphan(s, f)
  {
    if f != g {
      SameOrphan(s, s', f);
    }
  }

  lemma FaultLosesIff(s: State, p: Pid, v: VPage, write: bool, got: Option<Frame>, f: Frame)
    requires Placed(s) && Enabled(s, Fault(p, v, write, got))
    ensures var a := Fault(p, v, write, got); Orphan(Next(s, a), f) <==> Orphan(s, f) || Loses(s, a, f)
  {
    var a, e := Fault(p, v, write, got), s.At(p, v);
    HeldIsMapped(s, p, v);
    if IsRequested(e) && got.Some? {
      AllocateLosesNone(s, p, v, got.value, true, f);
    } else if e.p && IsToBeCopiedOnWrite(e) && got.Some? {
      CopyLosesIff(s, p, v, write, got.value, f);
    } else if e.p && IsToBeCopiedOnWrite(e) && !s.HeldElsewhere(p, v) {
      SameOrphan(s, Next(s, a), f);
    } else {
      EndLosesIff(s, a, f);
    }
  }

  lemma ShareLosesIff(s: State, p: Pid, v: VPage, got: Option<Frame>, f: Frame)
    requires Placed(s) && Enabled(s, Share(p, v, got))
    ensures var a := Share(p, v, got); Orphan(Next(s, a), f) <==> Orphan(s, f) || Loses(s, a, f)
  {
    var a, e := Share(p, v, got), s.At(p, v);
    if e.p {
      SameOrphan(s, Next(s, a), f);
    } else if IsRequested(e) && got.None? {
      EndLosesIff(s, a, f);
    } else if IsRequested(e) {
      AllocateLosesNone(s, p, v, got.value, true, f);
      SameOrphan(Allocate(s, p, v, got, true), Next(s, a), f);
    }
  }

  lemma ForkLosesNone(s: State, p: Pid, c: Pid, k: Frame, stack: Page, f: Frame)
    requires Placed(s) && Enabled(s, Fork(p, c, k, stack))
    ensures Orphan(ForkOf(s, p, c, k, stack), f) <==> Orphan(s, f)
  {
    var s' := ForkOf(s, p, c, k, stack);
    ForkEntries(s, p, c, k, stack);
    assert s'.At(c, KSTACK).base == k;
    forall q, w | s.At(q, w).p ensures s'.At(q, w).p && s'.At(q, w).base == s.At(q, w).base {}
    forall q, w | s'.At(q, w).p && s'.At(q, w).base != k
      ensures exists r :: s.At(r, w).p && s.At(r, w).base == s'.At(q, w).base
    {
      assert s.At(if q == c then p else q, w).p;
    }
  }

  lemma LoadLosesNone(s: State, c: Pid, image: map<VPage, Frame>, filled: map<Frame, Page>, next: VPage, f: Frame)
    requires Placed(s) && c !in s.space && FreshImage(s, image, filled)
    ensures Orphan(LoadOf(s, c, image, filled, next), f) <==> Orphan(s, f)
  {
    var s' := LoadOf(s, c, image, filled, next);
    LoadEntries(s, c, image, filled, next);
    FreshFrames(s, image, filled);
    assert forall q, w :: s.At(q, w).p ==> s'.At(q, w) == s.At(q, w);
    if f in image.Values {
      var v :| v in image && image[v] == f;
      assert s'.At(c, v).base == f;
    }
  }

  /** In a state that can be reached, a call loses a frame exactly when it ends
      the process that maps it alone, or makes it copy it, while another
      process has something else at that address. Lost frames stay lost, and no
      other call loses any. */
  lemma StepLosesIff(s: State, a: Action, f: Frame)
    requires Placed(s) && Enabled(s, a)
    ensures Orphan(Next(s, a), f) <==> Orphan(s, f) || Loses(s, a, f)
  {
    match a
    case Read(p, v, off) =>
    case Write(p, v, off, b) => SameOrphan(s, Next(s, a), f);
    case KernelWrite(p, v, off, b) => SameOrphan(s, Next(s, a), f);
    case Fault(p, v, write, got) => FaultLosesIff(s, p, v, write, got, f);
    case Palloc(p, ok) => SameOrphan(s, Next(s, a), f);
    case Share(p, v, got) => ShareLosesIff(s, p, v, got, f);
    case Fork(p, c, k, stack) => ForkLosesNone(s, p, c, k, stack, f);
    case Load(p, c, image, filled, next) => LoadLosesNone(s, c, image, filled, next, f);
    case LoadBy(p, c, image, filled, next) =>
      LoadLosesNone(s, c, image, filled, next, f);
      LoadKeepsOwner(s, p, c, image, filled, next);
      SameOrphan(LoadOf(s, c, image, filled, next), Next(s, a), f);
    case Exit(p) => EndLosesIff(s, a, f);
  }

  ghost predicate LosesAt(ss: seq<State>, acts: seq<Action>, i: nat, f: Frame) {
    i < |acts| && |ss| == |acts| + 1 && Enabled(ss[i], acts[i]) && Loses(ss[i], acts[i], f)
  }

  /** So in every run: each frame that is allocated is mapped somewhere, unless it
      was from the start, or some call lost it in this way. */
  lemma {:induction false} LostFrames(ss: seq<State>, acts: seq<Action>, f: Frame, n: nat)
    requires Run(ss, acts) && n <= |acts|
    ensures Orphan(ss[n], f) <==> Orphan(ss[0], f) || exists i: nat :: i < n && LosesAt(ss, acts, i, f)
  {
    if n > 0 {
      LostFrames(ss, acts, f, n - 1);
      RunKeepsPlaced(ss, acts, n - 1);
      assert StepAt(ss, acts, n - 1);
      StepLosesIff(ss[n - 1], acts[n - 1], f);
      assert LosesAt(ss, acts, n - 1, f) <==> Loses(ss[n - 1], acts[n - 1], f);
    }
  }
}
