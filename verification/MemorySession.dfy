// The memory calls of a running system, one after the other. Beside the kernel's
// data it keeps the run of the flat machine that they amount to, so what is
// proved of every run of that machine holds of the tables and frames themselves.
module MemorySession {
  import opened Common
  import opened Paging
  import opened PageTables
  import opened MemoryManager
  import opened ProgramLoader
  import C = CopyOnWrite

  // The steps of a store by p: the fault, if it takes one, and the store itself.
  function StoreSteps(s: C.State, p: nat, v: VPage, off: nat, b: bv8, got: Option<Frame>, done: bool): seq<C.Action> {
    (if C.Allowed(s.At(p, v), true) then [] else [C.Fault(p, v, true, got)]) + if done then [C.Write(p, v, off, b)] else []
  }

  class Kernel {
    const m: Manager
    ghost var ss: seq<C.State>      // the states of the run
    ghost var acts: seq<C.Action>   // and its steps

    ghost predicate Valid()
      reads this, m, m.tables, m.tables.bitmap.bytes
    {
      var valid := m.Valid() && C.RunTo(ss, acts, m.flat);
      valid
    }

    // After loader_init.
    constructor (m: Manager)
      requires m.Valid() && C.Initial(m.flat)
      ensures Valid() && this.m == m && acts == []
    {
      this.m := m;
      ss, acts := [m.flat], [];
    }

    // The run goes on with step a.
    ghost method Step(s: C.State, a: C.Action)
      requires C.RunTo(ss, acts, s) && C.Enabled(s, a)
      modifies this
      ensures C.RunTo(ss, acts, C.Next(s, a)) && acts == old(acts) + [a]
    {
      C.RunOn(ss, acts, s, a);
      ss, acts := ss + [C.Next(s, a)], acts + [a];
    }

    // task_switch
    method SwitchTo(p: nat)
      requires Valid() && p in m.flat.space
      modifies m`cur
      ensures Valid() && m.cur == p
    {
      m.SwitchTo(p);
    }

    // A store by the user program, with its fault if it takes one.
    method Store(v: VPage, off: nat, b: bv8) returns (done: bool, ghost got: Option<Frame>)
      requires Valid() && m.cur in m.flat.space && PageTables.UserPage(v) && off < PAGE_SIZE
      requires m.MustCopy(v) ==> m.HasTableFor(TMP_PAGE) || m.tables.Spare() > 0
      modifies this, m`processes, m`mem, m`flat, m.tables, m.tables.bitmap.bytes
      ensures Valid() && acts == old(acts) + StoreSteps(old(m.flat), m.cur, v, off, b, got, done)
      ensures Stored(old(m.flat), m.cur, v, off, b, got, done, m.flat)
    {
      ghost var s, p := m.flat, m.cur;
      m.Current();
      done, got := m.UserStore(v, off, b);
      RecordStore(s, p, v, off, b, got, done);
    }

    ghost method RecordStore(s: C.State, p: nat, v: VPage, off: nat, b: bv8, got: Option<Frame>, done: bool)
      requires C.RunTo(ss, acts, s) && Stored(s, p, v, off, b, got, done, m.flat)
      modifies this
      ensures C.RunTo(ss, acts, m.flat) && acts == old(acts) + StoreSteps(s, p, v, off, b, got, done)
    {
      StoreIsEnabled(s, p, v, off, b, got, done, m.flat);
      if !C.Allowed(s.At(p, v), true) {
        Step(s, C.Fault(p, v, true, got));
      }
      if done {
        Step(ss[|acts|], C.Write(p, v, off, b));
      }
    }

    // fork
    method Fork(stack: Page) returns (child: nat, ghost k: Frame)
      requires Valid() && m.cur in m.flat.space && m.cur in m.flat.next && m.cur < |m.processes|
      requires exists p: nat :: p < |m.processes| && !m.processes[p].live
      requires m.tables.Spare() >= TableCount(m.tables.frames, m.processes[m.cur].cr3, 1) + 3 && !(m.mem.Keys <= m.flat.used)
      modifies this, m`processes, m`mem, m`flat, m.tables, m.tables.bitmap.bytes
      ensures Valid() && child !in old(m.flat).space && C.CanReturn(old(m.flat), Some(k))
      ensures m.flat == C.ForkOf(old(m.flat), m.cur, child, k, stack) && acts == old(acts) + [C.Fork(m.cur, child, k, stack)]
      ensures m.tables.Spare() >= old(m.tables.Spare() - TableCount(m.tables.frames, m.processes[m.cur].cr3, 1)) - 3
    {
      ghost var s := m.flat;
      m.Current();
      child, k := m.Fork(stack);
      Step(s, C.Fork(m.cur, child, k, stack));
    }

    // loader_load, by the idle process
    method Load(stack: Page, data: seq<Page>) returns (child: nat, ghost image: map<VPage, Frame>, ghost filled: map<Frame, Page>)
      requires Valid() && CanLoad(m, |data|) && exists p: nat :: p < |m.processes| && !m.processes[p].live
      modifies this, m`processes, m`mem, m`flat, m.tables, m.tables.bitmap.bytes
      ensures Valid() && Loaded(image, filled, stack, data, |data|)
      ensures Loads(old(m.flat), m.cur, child, image, filled, FIRST_USER + |data|, m.flat)
      ensures acts == old(acts) + [C.Load(m.cur, child, image, filled, FIRST_USER + |data|)]
    {
      ghost var s, p, next := m.flat, m.cur, FIRST_USER + |data|;
      child, image, filled := LoadIdle(m, stack, data);
      RecordLoad(s, p, child, image, filled, next);
      assert m.cur == p;
    }

    ghost method RecordLoad(s: C.State, p: nat, c: nat, image: map<VPage, Frame>, filled: map<Frame, Page>, next: VPage)
      requires C.RunTo(ss, acts, s) && m.Valid() && Loads(s, p, c, image, filled, next, m.flat)
      modifies this
      ensures Valid() && acts == old(acts) + [C.Load(p, c, image, filled, next)]
    {
      Step(s, C.Load(p, c, image, filled, next));
    }

    // loader_load, by a process that uses its first page
    method LoadBy(stack: Page, data: seq<Page>) returns (child: nat, ghost image: map<VPage, Frame>, ghost filled: map<Frame, Page>)
      requires Valid() && CanLoadBy(m, |data|) && exists p: nat :: p < |m.processes| && !m.processes[p].live
      modifies this, m`processes, m`mem, m`flat, m.tables, m.tables.bitmap.bytes
      ensures Valid() && Loaded(image, filled, stack, data, |data|)
      ensures LoadsBy(old(m.flat), m.cur, child, image, filled, FIRST_USER + |data|, m.flat)
      ensures acts == old(acts) + [C.LoadBy(m.cur, child, image, filled, FIRST_USER + |data|)]
    {
      ghost var s, p, next := m.flat, m.cur, FIRST_USER + |data|;
      child, image, filled := LoadThrough(m, stack, data);
      RecordLoadBy(s, p, child, image, filled, next);
      assert m.cur == p;
    }

    ghost method RecordLoadBy(s: C.State, p: nat, c: nat, image: map<VPage, Frame>, filled: map<Frame, Page>, next: VPage)
      requires C.RunTo(ss, acts, s) && m.Valid() && LoadsBy(s, p, c, image, filled, next, m.flat)
      modifies this
      ensures Valid() && acts == old(acts) + [C.LoadBy(p, c, image, filled, next)]
    {
      Step(s, C.LoadBy(p, c, image, filled, next));
    }

    // palloc
    method Palloc() returns (page: Option<VPage>)
      requires Valid() && m.cur in m.flat.space && m.cur in m.flat.next
      requires var v := m.flat.next[m.cur]; PageTables.UserPage(v) && v != TMP_PAGE && !m.flat.At(m.cur, v).p
      modifies this, m`processes, m`flat, m.tables`frames, m.tables.bitmap.bytes
      ensures Valid() && acts == old(acts) + [C.Palloc(m.cur, page.Some?)]
    {
      ghost var s := m.flat;
      page := m.Palloc();
      Step(s, C.Palloc(m.cur, page.Some?));
    }

    // share_page
    method Share(v: VPage) returns (r: int, ghost got: Option<Frame>)
      requires Valid() && m.cur in m.flat.space && PageTables.UserPage(v) && v != TMP_PAGE
      modifies this, m`processes, m`flat, m.tables, m.tables.bitmap.bytes
      ensures Valid() && acts == old(acts) + [C.Share(m.cur, v, got)]
    {
      ghost var s := m.flat;
      m.Current();
      r, got := m.SharePage(v);
      Step(s, C.Share(m.cur, v, got));
    }

    // loader_exit
    method Exit()
      requires Valid() && m.cur in m.flat.space
      modifies this, m`processes, m`flat, m.tables, m.tables.bitmap.bytes
      ensures Valid() && m.flat == C.ExitOf(old(m.flat), m.cur) && acts == old(acts) + [C.Exit(m.cur)]
    {
      ghost var s := m.flat;
      m.Current();
      m.Exit();
      Step(s, C.Exit(m.cur));
    }

    // A byte that the processor fetches for the user program, if it may.
    method Fetch(v: VPage, off: nat) returns (byte: Option<bv8>)
      requires Valid() && m.cur in m.flat.space && PageTables.UserPage(v) && off < PAGE_SIZE
      modifies this
      ensures Valid() && byte == if C.Allowed(m.flat.At(m.cur, v), false) then C.Fetch(m.flat, m.cur, v, off) else None
      ensures acts == old(acts) + if C.Allowed(m.flat.At(m.cur, v), false) then [C.Read(m.cur, v, off)] else []
    {
      m.Current();
      var entry := m.tables.PtEntryFor(v, m.processes[m.cur].cr3);
      byte := None;
      if entry.Some? && C.Allowed(entry.value, false) {
        assert m.flat.At(m.cur, v).base in m.flat.used;
        byte := Some(m.mem[entry.value.base][off]);
        Step(m.flat, C.Read(m.cur, v, off));
      }
    }

    // Another process runs: it fetches one byte and exits.
    method FetchAndExit(c: nat, v: VPage, off: nat) returns (byte: Option<bv8>)
      requires Valid() && c in m.flat.space && PageTables.UserPage(v) && off < PAGE_SIZE && C.Allowed(m.flat.At(c, v), false)
      modifies this, m`cur, m`processes, m`flat, m.tables, m.tables.bitmap.bytes
      ensures Valid() && m.flat == C.ExitOf(old(m.flat), c) && byte == C.Fetch(old(m.flat), c, v, off)
    {
      SwitchTo(c);
      byte := Fetch(v, off);
      Exit();
    }

    // A process forks and stores a byte.
    method ForkThenStore(stack: Page, v: VPage, off: nat, b: bv8) returns (child: nat, done: bool, ghost k: Frame, ghost got: Option<Frame>)
      requires Valid() && m.cur in m.flat.space && m.cur in m.flat.next && m.cur < |m.processes|
      requires exists p: nat :: p < |m.processes| && !m.processes[p].live
      requires m.tables.Spare() >= TableCount(m.tables.frames, m.processes[m.cur].cr3, 1) + 4 && !(m.mem.Keys <= m.flat.used)
      requires PageTables.UserPage(v) && off < PAGE_SIZE
      modifies this, m`processes, m`mem, m`flat, m.tables, m.tables.bitmap.bytes
      ensures Valid() && child !in old(m.flat).space && C.CanReturn(old(m.flat), Some(k))
      ensures Stored(C.ForkOf(old(m.flat), m.cur, child, k, stack), m.cur, v, off, b, got, done, m.flat)
    {
      child, k := Fork(stack);
      done, got := Store(v, off, b);
    }

    /** A process forks and stores a byte into a page of its own; the child that
        is run then still fetches the byte from before the fork, and exits; the
        parent, if its store found a frame, fetches what it stored. */
    method ForkAndStore(stack: Page, v: VPage, off: nat, b: bv8) returns (before: Option<bv8>, done: bool, after: Option<bv8>)
      requires Valid() && m.cur in m.flat.space && m.cur in m.flat.next && m.cur < |m.processes| && C.Inv(m.flat)
      requires exists p: nat :: p < |m.processes| && !m.processes[p].live
      requires m.tables.Spare() >= TableCount(m.tables.frames, m.processes[m.cur].cr3, 1) + 4 && !(m.mem.Keys <= m.flat.used)
      requires PageTables.UserPage(v) && v != KSTACK && off < PAGE_SIZE
      requires var e := m.flat.At(m.cur, v); C.Allowed(e, false) && !e.shared
      modifies this, m`cur, m`processes, m`mem, m`flat, m.tables, m.tables.bitmap.bytes
      ensures Valid() && before.Some? && before == C.Fetch(old(m.flat), old(m.cur), v, off)
      ensures done ==> m.cur == old(m.cur) && after == Some(b)
    {
      ghost var s := m.flat;
      var parent := m.cur;
      var child, stored, k, got := ForkThenStore(stack, v, off, b);
      done, after := stored, None;
      ghost var t := m.flat;
      StoreLeavesChild(s, parent, child, k, stack, v, off, b, got, done, t);
      before := FetchAndExit(child, v, off);
      if done {
        SwitchTo(parent);
        after := Fetch(v, off);
      }
    }

    // --- what is known after any such calls -----------------------------------------------

    /** Whatever was called: a frame is mapped at one address only and never
        handed out or released while it is mapped. */
    lemma InPlace(p: nat, v: VPage, q: nat, w: VPage)
      requires Valid()
      ensures var s := m.flat;
              && (s.At(p, v).p && s.At(q, w).p && s.At(p, v).base == s.At(q, w).base ==> v == w)
              && (s.At(p, v).p ==> !C.CanReturn(s, Some(s.At(p, v).base)))
              && (s.At(q, w).p && q != p ==> s.At(q, w).base !in C.Freed(s, p))
    {
      C.FramesStayInPlace(ss, acts, p, v, q, w);
    }

    /** And after careful calls each process fetches what the machine shows it in
        which fork copies every page at once. */
    lemma FetchesWhatIsSeen(p: nat, v: VPage, off: nat)
      requires Valid() && (forall i :: 0 <= i < |acts| ==> C.Careful(ss[i], acts[i])) && off < PAGE_SIZE
      ensures C.Inv(m.flat) && C.Fetch(m.flat, p, v, off) == C.Sees(C.Abs(m.flat), p, v, off)
      ensures forall i :: 0 <= i <= |acts| ==> C.Inv(ss[i])
      ensures forall i :: 0 <= i < |acts| ==> C.EagerStep(C.Abs(ss[i]), acts[i], C.Abs(ss[i + 1]))
    {
      C.LazyForkSimulatesEagerFork(ss, acts);
    }
  }

  // In state s the process p, whose first page is free, can load c, and t is what that leaves.
  ghost predicate Loads(s: C.State, p: nat, c: nat, image: map<VPage, Frame>, filled: map<Frame, Page>, next: VPage, t: C.State) {
    var loads :=
      && p in s.space && p in s.next && s.At(p, FIRST_USER) == ZERO && c !in s.space
      && C.FreshImage(s, image, filled) && t == C.LoadOf(s, c, image, filled, next);
    loads
  }

  method LoadIdle(m: Manager, stack: Page, data: seq<Page>)
    returns (child: nat, ghost image: map<VPage, Frame>, ghost filled: map<Frame, Page>)
    requires CanLoad(m, |data|) && exists p: nat :: p < |m.processes| && !m.processes[p].live
    modifies m`processes, m`mem, m`flat, m.tables, m.tables.bitmap.bytes
    ensures m.Valid() && Loaded(image, filled, stack, data, |data|)
    ensures Loads(old(m.flat), m.cur, child, image, filled, FIRST_USER + |data|, m.flat)
  {
    ghost var s, p := m.flat, m.cur;
    m.Current();
    child, image, filled := ProgramLoader.Load(m, stack, data);
    assert m.cur == p;
  }

  // And so can p when it uses that page.
  ghost predicate LoadsBy(s: C.State, p: nat, c: nat, image: map<VPage, Frame>, filled: map<Frame, Page>, next: VPage, t: C.State) {
    var loads :=
      && p in s.space && p in s.next && s.At(p, FIRST_USER).p && c !in s.space
      && C.FreshImage(s, image, filled) && t == C.RestoreOf(C.LoadOf(s, c, image, filled, next), p);
    loads
  }

  method LoadThrough(m: Manager, stack: Page, data: seq<Page>)
    returns (child: nat, ghost image: map<VPage, Frame>, ghost filled: map<Frame, Page>)
    requires CanLoadBy(m, |data|) && exists p: nat :: p < |m.processes| && !m.processes[p].live
    modifies m`processes, m`mem, m`flat, m.tables, m.tables.bitmap.bytes
    ensures m.Valid() && Loaded(image, filled, stack, data, |data|)
    ensures LoadsBy(old(m.flat), m.cur, child, image, filled, FIRST_USER + |data|, m.flat)
  {
    ghost var s, p := m.flat, m.cur;
    m.Current();
    child, image, filled := LoadByProcess(m, stack, data);
    assert m.cur == p;
  }

  // State t is what a store leaves of state s.
  ghost predicate Stored(s: C.State, p: nat, v: VPage, off: nat, b: bv8, got: Option<Frame>, done: bool, t: C.State) {
    && C.Placed(s) && p in s.space && p in s.next && C.CanReturn(s, got) && off < PAGE_SIZE
    && var s1 := if C.Allowed(s.At(p, v), true) then s else C.PageFault(s, p, v, got);
       (done <==> p in s1.space) && (done ==> s1.At(p, v).base in s1.mem) && t == if done then C.Poke(s1, p, v, off, b) else s1
  }

  // What a fork and a store by the parent leave: the child's page as it was, and
  // the parent's page with the byte, whether or not the child exits.
  lemma StoreLeavesChild(s: C.State, p: nat, c: nat, k: Frame, stack: Page, v: VPage, off: nat, b: bv8,
                         got: Option<Frame>, done: bool, t: C.State)
    requires C.Inv(s) && p in s.space && p in s.next && c !in s.space && C.CanReturn(s, Some(k)) && v != KSTACK
    requires C.Allowed(s.At(p, v), false) && !s.At(p, v).shared
    requires Stored(C.ForkOf(s, p, c, k, stack), p, v, off, b, got, done, t)
    ensures c in t.space && c in t.next && C.Allowed(t.At(c, v), false)
    ensures C.Fetch(t, c, v, off) == C.Fetch(s, p, v, off) && C.Fetch(s, p, v, off).Some?
    ensures done ==> p in t.space && C.Allowed(t.At(p, v), true) && C.Fetch(t, p, v, off) == Some(b)
  {
    var s1 := C.ForkOf(s, p, c, k, stack);
    C.ForkEntries(s, p, c, k, stack);
    C.ForkKeepsInv(s, p, c, k, stack);
    C.FaultChangesOnePage(s1, p, v, got);
    assert s1.At(c, v).p && s1.HeldElsewhere(p, v);
  }

  lemma StoreIsEnabled(s: C.State, p: nat, v: VPage, off: nat, b: bv8, got: Option<Frame>, done: bool, t: C.State)
    requires Stored(s, p, v, off, b, got, done, t)
    ensures !C.Allowed(s.At(p, v), true) ==> C.Enabled(s, C.Fault(p, v, true, got))
    ensures var s1 := if C.Allowed(s.At(p, v), true) then s else C.PageFault(s, p, v, got);
            done ==> C.Enabled(s1, C.Write(p, v, off, b))
  {
    if !C.Allowed(s.At(p, v), true) {
      C.FaultMakesProgress(s, p, v, true);
      C.FaultKeepsPlaced(s, p, v, got);
    }
  }
}
