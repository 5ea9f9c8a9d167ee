// The memory calls of the kernel as they run: PCBs, two-level tables and the
// frame bitmap changed in place. Every call is a step of the flat machine
// of CopyOnWrite.dfy, so what is proved of its runs holds of this code.
module MemoryManager {
  import opened Common
  import opened Paging
  import opened FrameBitmap
  import opened PageTables
  import C = CopyOnWrite

  const TMP_PAGE: VPage := 0xff800     // MM_TMP_PAGE

  // The fields of a PCB that concern memory; `live` is `id != FREE_PCB_PID`.
  datatype Pcb = Pcb(live: bool, cr3: Frame, next: VPage)

  predicate Live(ps: seq<Pcb>, p: nat) {
    p < |ps| && ps[p].live
  }

  // The entry of page v in the tables of process p.
  function EntryOf(ps: seq<Pcb>, m: Memory, p: nat, v: VPage): Entry {
    if Live(ps, p) && PageTables.UserPage(v) then Lookup(m, ps[p].cr3, v) else ZERO
  }

  /** Process p, and each of its pages, is what the flat state says; its
      directory is one of `dirs`. */
  ghost predicate Shows(ps: seq<Pcb>, m: Memory, dirs: set<Frame>, s: C.State, p: nat) {
    && (p in s.space <==> Live(ps, p))
    && (p in s.next <==> Live(ps, p))
    && (Live(ps, p) ==> s.next[p] == ps[p].next && ps[p].cr3 in dirs)
    && forall v {:trigger s.At(p, v)} :: s.At(p, v) == EntryOf(ps, m, p, v)
  }

  ghost predicate OthersShown(ps: seq<Pcb>, m: Memory, dirs: set<Frame>, s: C.State, p: nat) {
    forall q: nat :: q != p ==> Shows(ps, m, dirs, s, q)
  }

  ghost predicate OwnDirectory(ps: seq<Pcb>, p: nat, q: nat) {
    p != q && Live(ps, p) && Live(ps, q) ==> ps[p].cr3 != ps[q].cr3
  }

  // All processes are shown, each by a directory of its own.
  ghost predicate AllShown(ps: seq<Pcb>, m: Memory, dirs: set<Frame>, s: C.State) {
    && (forall q: nat :: Shows(ps, m, dirs, s, q))
    && (forall p: nat, q: nat :: OwnDirectory(ps, p, q))
  }

  // What no call breaks in the flat machine, and the scratch page is not in use.
  ghost predicate Orderly(s: C.State) {
    C.Placed(s) && forall p :: s.At(p, TMP_PAGE) == ZERO
  }

  class Manager {
    const tables: Tables
    var processes: seq<Pcb>
    var mem: map<Frame, Page>     // contents of the user-zone frames
    var cur: nat                  // cur_pid
    ghost var flat: C.State       // the flat machine's state

    // enable_paging and loader_init: only the idle process, with no user page.
    constructor (tables: Tables, maxPid: nat, memory: map<Frame, Page>)
      requires tables.Valid() && tables.Spare() > 0 && maxPid > 0
      requires tables.dirs == {}
      requires forall f :: f in memory <==> tables.UserFrame(f)
      modifies tables, tables.bitmap.bytes
      ensures Valid() && this.tables == tables && |processes| == maxPid && cur == 0
      ensures flat.space.Keys == {0} && forall p, v :: flat.At(p, v) == ZERO
    {
      var dir := tables.DirNew();
      this.tables := tables;
      this.processes := seq(maxPid, i => Pcb(i == 0, dir, 0));
      this.mem := memory;
      this.cur := 0;
      this.flat := C.State(map[0 := map[]], memory, tables.UserTaken(), map[0 := 0]);
      new;
      forall p: nat ensures Shows(processes, tables.frames, tables.dirs, flat, p) {
        forall v ensures flat.At(p, v) == EntryOf(processes, tables.frames, p, v) {
          assert Lookup(tables.frames, dir, v) == ZERO;
        }
      }
      C.InitialHasInv(flat);
    }

    // All but the current process is in order; enough to tear it down.
    ghost predicate Physical()
      reads this, tables, tables.bitmap.bytes
    {
      var physical :=
        && tables.Valid()
        && cur < |processes|
        && (forall f :: f in mem <==> tables.UserFrame(f))
        && OthersShown(processes, tables.frames, tables.dirs, flat, cur);
      physical
    }

    // The kernel's data represent `flat`, but for which frames are allocated.
    ghost predicate Linked()
      reads this, tables, tables.bitmap.bytes
    {
      && tables.Valid()
      && cur < |processes|
      && AllShown(processes, tables.frames, tables.dirs, flat)
      && (forall f :: f in mem <==> tables.UserFrame(f))
      && flat.mem == mem
    }

    ghost predicate Represents()
      reads this, tables, tables.bitmap.bytes
    {
      Linked() && flat.used == tables.UserTaken()
    }

    ghost predicate Valid()
      reads this, tables, tables.bitmap.bytes
    {
      var valid := Represents() && Orderly(flat);
      valid
    }

    // So they do with that process list and flat state.
    ghost predicate Fits(ps: seq<Pcb>, t: C.State)
      reads this, tables, tables.bitmap.bytes
    {
      var fits :=
        && tables.Valid()
        && cur < |ps|
        && AllShown(ps, tables.frames, tables.dirs, t)
        && (forall f :: f in mem <==> tables.UserFrame(f))
        && t.mem == mem && t.used == tables.UserTaken();
      fits
    }

    // A PCB is filled in.
    method SetPcb(p: nat, pcb: Pcb, ghost t: C.State)
      requires p < |processes| && Fits(processes[p := pcb], t)
      modifies this`processes, this`flat
      ensures Represents() && flat == t && processes == old(processes)[p := pcb]
    {
      processes := processes[p := pcb];
      flat := t;
    }

    // --- the tests on other processes -----------------------------------------------

    // is_to_be_copied_on_write_by_other_processes
    method HeldByOthers(v: VPage) returns (held: bool)
      requires Physical() && PageTables.UserPage(v)
      ensures held <==> exists q :: q != cur && (flat.At(q, v).p || flat.At(q, v).cor)
      ensures held <==> flat.HeldElsewhere(cur, v)
    {
      for i := 0 to |processes|
        invariant forall q: nat :: q < i && q != cur ==> !flat.At(q, v).p && !flat.At(q, v).cor
      {
        assert i != cur ==> Shows(processes, tables.frames, tables.dirs, flat, i);
        if processes[i].live && i != cur {
          var entry := tables.PtEntryFor(v, processes[i].cr3);
          if entry.Some? && (entry.value.p || entry.value.cor) {
            assert flat.At(i, v) == entry.value;
            return true;
          }
        }
      }
      NoMoreProcesses();
      held := false;
    }

    // shared_with_other_processes
    method SharedByOthers(v: VPage) returns (shared: bool)
      requires Physical() && PageTables.UserPage(v)
      ensures shared <==> exists q :: q != cur && flat.At(q, v).shared
      ensures shared <==> flat.SharedElsewhere(cur, v)
    {
      for i := 0 to |processes|
        invariant forall q: nat :: q < i && q != cur ==> !flat.At(q, v).shared
      {
        assert i != cur ==> Shows(processes, tables.frames, tables.dirs, flat, i);
        if processes[i].live && i != cur {
          var entry := tables.PtEntryFor(v, processes[i].cr3);
          if entry.Some? && entry.value.shared {
            assert flat.At(i, v) == entry.value;
            return true;
          }
        }
      }
      NoMoreProcesses();
      shared := false;
    }

    lemma NoMoreProcesses()
      requires Physical()
      ensures forall q: nat, v :: q >= |processes| ==> flat.At(q, v) == ZERO
    {
      forall q: nat, v | q >= |processes| ensures flat.At(q, v) == ZERO {
        assert Shows(processes, tables.frames, tables.dirs, flat, q);
      }
    }

    // What is known of the current process.
    lemma Current()
      requires Linked() && cur in flat.space
      ensures Live(processes, cur) && processes[cur].cr3 in tables.dirs
      ensures cur in flat.next && flat.next[cur] == processes[cur].next
      ensures forall v {:trigger flat.At(cur, v)} :: flat.At(cur, v) == EntryOf(processes, tables.frames, cur, v)
    {
      assert Shows(processes, tables.frames, tables.dirs, flat, cur);
    }

    // --- teardown ----------------------------------------------------------------------

    // The body of mm_dir_free's inner loop, for page v in table t.
    method FreePage(t: Frame, v: VPage)
      requires Physical() && PageTables.UserPage(v)
      requires KernelFrame(t) && Detached(tables.frames, tables.dirs, t)
      requires tables.frames[t][v % ENTRIES] == flat.At(cur, v) && (flat.At(cur, v).p ==> flat.At(cur, v).base in mem)
      modifies tables`frames, tables.bitmap.bytes
      ensures Physical() && Detached(tables.frames, tables.dirs, t)
      ensures tables.frames == old(tables.frames)[t := tables.frames[t]]
      ensures forall i :: 0 <= i < ENTRIES && i != v % ENTRIES ==> tables.frames[t][i] == old(tables.frames[t][i])
      ensures tables.UserTaken() == old(tables.UserTaken()) - ReleasedFrame(flat, cur, v)
      ensures tables.KernelTaken() == old(tables.KernelTaken()) && tables.Spare() == old(tables.Spare())
    {
      var e := tables.frames[t][v % ENTRIES];
      if e.p {
        var held := HeldByOthers(v);
        var shared := SharedByOthers(v);
        tables.ReleaseEntry(t, v % ENTRIES, e, held, shared);
        forall q: nat | q != cur ensures Shows(processes, tables.frames, tables.dirs, flat, q) {
          SamePagesShown(processes, old(tables.frames), tables.frames, tables.dirs, flat, flat, q);
        }
      }
    }

    // The inner loop of mm_dir_free, over table t of directory slot pde.
    method FreePages(t: Frame, pde: nat)
      requires Physical() && 0 < pde < ENTRIES
      requires KernelFrame(t) && Detached(tables.frames, tables.dirs, t) && C.Placed(flat) && flat.used <= mem.Keys
      requires forall pte :: 0 <= pte < ENTRIES ==> tables.frames[t][pte] == flat.At(cur, pde * ENTRIES + pte)
      modifies tables`frames, tables.bitmap.bytes
      ensures Physical()
      ensures tables.frames == old(tables.frames)[t := tables.frames[t]]
      ensures tables.UserTaken() == old(tables.UserTaken()) - FreedIn(flat, cur, pde * ENTRIES, pde * ENTRIES + ENTRIES)
      ensures tables.KernelTaken() == old(tables.KernelTaken()) && tables.Spare() == old(tables.Spare())
    {
      ghost var m0, user := tables.frames, tables.UserTaken();
      for pte := 0 to ENTRIES
        invariant Physical() && Detached(tables.frames, tables.dirs, t)
        invariant Swept(m0, tables.frames, t, flat, cur, pde, pte, user, tables.UserTaken())
        invariant tables.KernelTaken() == old(tables.KernelTaken()) && tables.Spare() == old(tables.Spare())
      {
        ghost var m, taken := tables.frames, tables.UserTaken();
        PageOfSlot(pde, pte);
        SweptPage(m0, m, t, flat, cur, pde, pte, user, taken);
        FreePage(t, pde * ENTRIES + pte);
        NextSwept(m0, m, tables.frames, t, flat, cur, pde, pte, user, taken, tables.UserTaken());
      }
    }

    // The body of mm_dir_free's outer loop: the pages of slot pde, then its table.
    method FreeSlot(dir: Frame, pde: nat, ghost m0: Memory)
      requires Physical() && 0 < pde < ENTRIES && dir == processes[cur].cr3 && Live(processes, cur)
      requires C.Placed(flat) && flat.used <= mem.Keys && StillTaken(m0, dir, pde, tables.KernelTaken())
      requires OwnTables(m0, tables.frames, tables.dirs, dir, pde, tables.kernelTable)
      requires forall v {:trigger flat.At(cur, v)} :: flat.At(cur, v) == EntryOf(processes, m0, cur, v)
      modifies tables`frames, tables.bitmap.bytes
      ensures Physical() && StillTaken(m0, dir, pde + 1, tables.KernelTaken())
      ensures OwnTables(m0, tables.frames, tables.dirs, dir, pde + 1, tables.kernelTable)
      ensures tables.UserTaken() == old(tables.UserTaken()) - FreedIn(flat, cur, pde * ENTRIES, pde * ENTRIES + ENTRIES)
      ensures tables.KernelTaken() == old(tables.KernelTaken()) - TableIn(m0, dir, pde)
      ensures tables.Spare() == old(tables.Spare()) + if HasTable(m0, dir, pde) then 1 else 0
    {
      TableShows(processes, m0, flat, cur, pde);
      if tables.frames[dir][pde].p {
        var t := tables.frames[dir][pde].base;
        assert HasTable(m0, dir, pde) && TableOf(m0, dir, pde) == t;
        NextStillTaken(m0, tables.frames, tables.dirs, dir, pde, tables.kernelTable, tables.KernelTaken());
        FreePages(t, pde);
        NextOwnTable(m0, old(tables.frames), tables.frames, tables.dirs, dir, pde, tables.kernelTable);
        tables.FreeTable(t);
      }
    }

    // The outer loop of mm_dir_free.
    method FreeSlots(dir: Frame)
      requires Physical() && Live(processes, cur) && dir == processes[cur].cr3
      requires C.Placed(flat) && flat.used <= mem.Keys && tables.UserTaken() == flat.used
      requires OwnTables(tables.frames, tables.frames, tables.dirs, dir, 1, tables.kernelTable)
      requires StillTaken(tables.frames, dir, 1, tables.KernelTaken())
      requires forall v {:trigger flat.At(cur, v)} :: flat.At(cur, v) == EntryOf(processes, tables.frames, cur, v)
      modifies tables`frames, tables.bitmap.bytes
      ensures Physical() && dir in tables.KernelTaken()
      ensures OwnTables(old(tables.frames), tables.frames, tables.dirs, dir, ENTRIES, tables.kernelTable)
      ensures tables.UserTaken() == flat.used - FreedIn(flat, cur, FIRST_PAGE, PAGES)
      ensures tables.KernelTaken() == old(tables.KernelTaken() - TablesUpTo(tables.frames, dir, ENTRIES))
      ensures tables.Spare() == old(tables.Spare() + TableCount(tables.frames, dir, 1))
    {
      ghost var m0, kernel, spare := tables.frames, tables.KernelTaken(), tables.Spare();
      for pde := 1 to ENTRIES
        invariant Physical() && StillTaken(m0, dir, pde, tables.KernelTaken())
        invariant OwnTables(m0, tables.frames, tables.dirs, dir, pde, tables.kernelTable)
        invariant GivenBack(m0, dir, flat, cur, pde, kernel, spare, tables.UserTaken(), tables.KernelTaken(), tables.Spare())
      {
        ghost var user, now, left := tables.UserTaken(), tables.KernelTaken(), tables.Spare();
        FreeSlot(dir, pde, m0);
        NextGivenBack(m0, dir, flat, cur, pde, kernel, spare, user, now, left, tables.UserTaken(), tables.KernelTaken(), tables.Spare());
      }
    }

    /** mm_dir_free, for the directory of the current process: the kernel zone
        gets back the directory and all its tables. */
    method DirFree(dir: Frame)
      requires Physical() && Live(processes, cur) && dir == processes[cur].cr3
      requires C.Placed(flat) && flat.used <= mem.Keys && tables.UserTaken() == flat.used
      requires OwnTables(tables.frames, tables.frames, tables.dirs, dir, 1, tables.kernelTable)
      requires StillTaken(tables.frames, dir, 1, tables.KernelTaken())
      requires forall v {:trigger flat.At(cur, v)} :: flat.At(cur, v) == EntryOf(processes, tables.frames, cur, v)
      modifies tables`frames, tables.bitmap.bytes
      ensures Physical()
      ensures tables.UserTaken() == flat.used - FreedIn(flat, cur, FIRST_PAGE, PAGES)
      ensures tables.KernelTaken() == old(tables.KernelTaken() - TablesUpTo(tables.frames, dir, ENTRIES)) - {dir}
      ensures tables.Spare() == old(tables.Spare() + TableCount(tables.frames, dir, 1)) + 1
    {
      FreeSlots(dir);
      tables.FreeTable(dir);
    }

    // loader_exit, as far as memory goes
    method Exit()
      requires Valid() && cur in flat.space
      modifies this`processes, this`flat, tables, tables.bitmap.bytes
      ensures Valid() && flat == C.ExitOf(old(flat), cur)
      ensures tables.KernelTaken() == old(tables.KernelTaken() - TablesUpTo(tables.frames, processes[cur].cr3, ENTRIES) - {processes[cur].cr3})
      ensures tables.Spare() == old(tables.Spare() + TableCount(tables.frames, processes[cur].cr3, 1)) + 1
    {
      ExitIsOrderly(flat, cur);
      Current();
      FreedInAll(processes, tables.frames, flat, cur);
      DropDirectoryShown(processes, tables.frames, tables.dirs, flat, cur);
      tables.Forget(processes[cur].cr3);
      DirFree(processes[cur].cr3);
      WithoutProcess(processes, tables.frames, tables.dirs, flat, cur);
      SetPcb(cur, processes[cur].(live := false), C.ExitOf(flat, cur));
    }

    // task_switch: another process is the current one.
    method SwitchTo(p: nat)
      requires Valid() && p in flat.space
      modifies this`cur
      ensures Valid() && cur == p
    {
      assert Shows(processes, tables.frames, tables.dirs, flat, p);
      cur := p;
    }

    // --- page faults ------------------------------------------------------------------

    // The current process has a page table for page v.
    predicate HasTableFor(v: VPage)
      reads this, tables
    {
      cur < |processes| && HasTable(tables.frames, processes[cur].cr3, v / ENTRIES)
    }

    // A store to page v copies it through the scratch page.
    ghost predicate MustCopy(v: VPage)
      reads this
    {
      IsToBeCopiedOnWrite(flat.At(cur, v)) && flat.HeldElsewhere(cur, v)
    }

    // A frame just allocated is mapped at page v of the current process (mm_map_frame).
    method MapNew(frame: Frame, v: VPage, us: bool)
      requires Linked() && cur in flat.space && PageTables.UserPage(v)
      requires tables.UserTaken() == flat.used + {frame} && (HasTableFor(v) || tables.Spare() > 0)
      modifies this`flat, tables`frames, tables.bitmap.bytes
      ensures Represents()
      ensures flat == old(flat).(used := old(flat).used + {frame}).Put(cur, v, Mapped(frame, us))
    {
      Current();
      ghost var s := flat.(used := flat.used + {frame});
      StillShows(processes, tables.frames, tables.frames, tables.dirs, flat, s);
      flat := s.Put(cur, v, Mapped(frame, us));
      tables.MapFrame(frame, v, processes[cur].cr3, us);
      PutShows(processes, old(tables.frames), tables.frames, tables.dirs, s, cur, v, Mapped(frame, us));
    }

    // A change of the flags of a present entry of the current process.
    method Reflag(v: VPage, e: Entry)
      requires Represents() && cur in flat.space && PageTables.UserPage(v) && HasTableFor(v)
      modifies this`flat, tables`frames
      ensures Represents() && flat == old(flat).Put(cur, v, e)
      ensures forall w :: old(HasTableFor(w)) ==> HasTableFor(w)
    {
      Current();
      flat := flat.Put(cur, v, e);
      tables.Store(v, e, processes[cur].cr3);
      PutShows(processes, old(tables.frames), tables.frames, tables.dirs, old(flat), cur, v, e);
    }

    // mm_user_allocate
    method UserAllocate(v: VPage) returns (got: Option<Frame>)
      requires Valid() && cur in flat.space && PageTables.UserPage(v) && v != TMP_PAGE
      requires HasTableFor(v) || tables.Spare() > 0
      modifies this`processes, this`flat, tables, tables.bitmap.bytes
      ensures Valid() && C.CanReturn(old(flat), got)
      ensures flat == C.Allocate(old(flat), cur, v, got, true)
    {
      got := tables.Alloc();
      if got.None? {
        Exit();
      } else {
        AllocateIsOrderly(flat, cur, v, got.value, true);
        MapNew(got.value, v, true);
      }
    }

    // A frame is filled through an unused page, mapped meanwhile.
    method FillThrough(v: VPage, frame: Frame, contents: Page, dir: Frame)
      requires tables.Valid() && dir in tables.dirs && PageTables.UserPage(v) && Lookup(tables.frames, dir, v) == ZERO
      requires HasTable(tables.frames, dir, v / ENTRIES) || tables.Spare() > 0
      modifies this`mem, tables`frames, tables.bitmap.bytes
      ensures tables.Valid() && mem == old(mem)[frame := contents]
      ensures SamePages(old(tables.frames), tables.frames, tables.dirs) && tables.UserTaken() == old(tables.UserTaken())
      ensures forall d, j :: d in tables.dirs ==>
                (HasTable(tables.frames, d, j) <==> old(HasTable(tables.frames, d, j)) || (d == dir && j == v / ENTRIES))
      ensures tables.Spare() == if old(HasTable(tables.frames, dir, v / ENTRIES)) then old(tables.Spare()) else old(tables.Spare()) - 1
    {
      tables.MapFrame(frame, v, dir, false);
      mem := mem[frame := contents];
      tables.UnmapPage(v, dir);
    }

    // mm_copy_on_write, when the page must be copied
    method CopyPage(frame: Frame, v: VPage)
      requires Linked() && cur in flat.space && PageTables.UserPage(v) && tables.UserTaken() == flat.used + {frame}
      requires flat.At(cur, v).p && flat.At(cur, v).base in mem && frame in mem && flat.At(cur, TMP_PAGE) == ZERO
      requires HasTableFor(TMP_PAGE) || tables.Spare() > 0
      modifies this`mem, this`flat, tables`frames, tables.bitmap.bytes
      ensures Represents()
      ensures flat == old(flat).(mem := old(mem)[frame := old(mem)[old(flat).At(cur, v).base]],
                                 used := old(flat).used + {frame}).Put(cur, v, Mapped(frame, old(flat).At(cur, v).us))
    {
      var dir := processes[cur].cr3;
      Current();
      assert flat.At(cur, TMP_PAGE) == ZERO;
      var e := tables.PtEntryFor(v, dir).value;
      FillThrough(TMP_PAGE, frame, mem[e.base], dir);
      ghost var s := flat.(mem := mem);
      StillShows(processes, old(tables.frames), tables.frames, tables.dirs, flat, s);
      flat := s;
      MapNew(frame, v, e.us);
    }

    // The frame the model may take for a call that did not allocate.
    ghost function AnyFrame(): (got: Option<Frame>)
      requires Valid()
      reads this, tables, tables.bitmap.bytes
      ensures C.CanReturn(flat, got)
    {
      if flat.mem.Keys <= flat.used then None
      else
        var f :| f in flat.mem && f !in flat.used;
        Some(f)
    }

    // mm_copy_on_write while another process has the page
    method CopyForWrite(v: VPage) returns (got: Option<Frame>)
      requires Valid() && cur in flat.space && PageTables.UserPage(v) && v != TMP_PAGE
      requires flat.At(cur, v).p && IsToBeCopiedOnWrite(flat.At(cur, v)) && flat.HeldElsewhere(cur, v)
      requires HasTableFor(TMP_PAGE) || tables.Spare() > 0
      modifies this`processes, this`mem, this`flat, tables, tables.bitmap.bytes
      ensures Valid() && C.CanReturn(old(flat), got)
      ensures flat == C.CopyOnWrite(old(flat), cur, v, got)
    {
      CopySource(flat, cur, v);
      got := tables.Alloc();
      if got.None? {
        Exit();
      } else {
        CopyInto(got.value, v);
      }
    }

    // The page is copied into a frame just allocated.
    method CopyInto(frame: Frame, v: VPage)
      requires Linked() && Orderly(flat) && cur in flat.space && PageTables.UserPage(v) && v != TMP_PAGE
      requires flat.At(cur, v).p && IsToBeCopiedOnWrite(flat.At(cur, v)) && flat.HeldElsewhere(cur, v)
      requires C.CanReturn(flat, Some(frame)) && tables.UserTaken() == flat.used + {frame}
      requires HasTableFor(TMP_PAGE) || tables.Spare() > 0
      modifies this`mem, this`flat, tables`frames, tables.bitmap.bytes
      ensures Valid() && old(flat).At(cur, v).base in old(flat).mem
      ensures flat == C.CopyOnWrite(old(flat), cur, v, Some(frame))
    {
      CopySource(flat, cur, v);
      CopyIsOrderly(flat, cur, v, frame);
      CopyPage(frame, v);
    }

    // mm_copy_on_write
    method CopyOnWrite(v: VPage) returns (ghost got: Option<Frame>)
      requires Valid() && cur in flat.space && PageTables.UserPage(v) && v != TMP_PAGE
      requires flat.At(cur, v).p && IsToBeCopiedOnWrite(flat.At(cur, v))
      requires MustCopy(v) ==> HasTableFor(TMP_PAGE) || tables.Spare() > 0
      modifies this`processes, this`mem, this`flat, tables, tables.bitmap.bytes
      ensures Valid() && C.CanReturn(old(flat), got)
      ensures flat == C.CopyOnWrite(old(flat), cur, v, got)
    {
      Current();
      assert flat.At(cur, v) == EntryOf(processes, tables.frames, cur, v);
      var held := HeldByOthers(v);
      if held {
        var frame := CopyForWrite(v);
        got := frame;
      } else {
        got := AnyFrame();
        FaultIsOrderly(flat, cur, v, got);
        var e := tables.PtEntryFor(v, processes[cur].cr3).value;
        Reflag(v, e.(rw := true, cor := false));
      }
    }

    // page_fault_handler, for a user process faulting on page v
    method PageFault(v: VPage) returns (ghost got: Option<Frame>)
      requires Valid() && cur in flat.space && PageTables.UserPage(v)
      requires MustCopy(v) ==> HasTableFor(TMP_PAGE) || tables.Spare() > 0
      modifies this`processes, this`mem, this`flat, tables, tables.bitmap.bytes
      ensures Valid() && C.CanReturn(old(flat), got)
      ensures flat == C.PageFault(old(flat), cur, v, got)
    {
      got := AnyFrame();
      Current();
      assert flat.At(cur, v) == EntryOf(processes, tables.frames, cur, v);
      var entry := tables.PtEntryFor(v, processes[cur].cr3);
      if entry.Some? && IsRequested(entry.value) {
        var frame := UserAllocate(v);
        got := frame;
      } else if entry.Some? && IsToBeCopiedOnWrite(entry.value) {
        got := CopyOnWrite(v);
      } else {
        Exit();
      }
    }

    // A byte is stored in a present page of the current process.
    method Poke(v: VPage, off: nat, b: bv8)
      requires Valid() && cur in flat.space && PageTables.UserPage(v) && off < PAGE_SIZE && flat.At(cur, v).p
      modifies this`mem, this`flat
      ensures Valid() && flat == C.Poke(old(flat), cur, v, off, b)
    {
      Current();
      var f := tables.PtEntryFor(v, processes[cur].cr3).value.base;
      ghost var s := C.Poke(flat, cur, v, off, b);
      C.SameEntriesKeepPlaced(flat, s);
      StillShows(processes, tables.frames, tables.frames, tables.dirs, flat, s);
      assert forall p :: s.At(p, TMP_PAGE) == flat.At(p, TMP_PAGE);
      mem := mem[f := mem[f][off := b]];
      flat := s;
    }

    /** A store by the user program: the processor checks the entry, the kernel
        serves the fault if there is one, and the store is tried again. It
        succeeds then, unless the fault has killed the process. */
    method UserStore(v: VPage, off: nat, b: bv8) returns (done: bool, ghost got: Option<Frame>)
      requires Valid() && cur in flat.space && cur in flat.next && PageTables.UserPage(v) && off < PAGE_SIZE
      requires MustCopy(v) ==> HasTableFor(TMP_PAGE) || tables.Spare() > 0
      modifies this`processes, this`mem, this`flat, tables, tables.bitmap.bytes
      ensures Valid() && C.CanReturn(old(flat), got)
      ensures var s := if C.Allowed(old(flat).At(cur, v), true) then old(flat) else C.PageFault(old(flat), cur, v, got);
              (done <==> cur in s.space) && flat == if done then C.Poke(s, cur, v, off, b) else s
    {
      Current();
      got := AnyFrame();
      var entry := tables.PtEntryFor(v, processes[cur].cr3);
      if entry.None? || !C.Allowed(entry.value, true) {
        C.FaultMakesProgress(flat, cur, v, true);
        got := PageFault(v);
        if !IsAlive() {
          return false, got;
        }
      }
      Poke(v, off, b);
      done := true;
    }

    predicate IsAlive()
      requires Linked()
      reads this, tables, tables.bitmap.bytes
      ensures IsAlive() <==> cur in flat.space
    {
      assert Shows(processes, tables.frames, tables.dirs, flat, cur);
      processes[cur].live
    }

    // --- system calls ------------------------------------------------------------------

    // mm_share_page: 0, or -1 when the page is neither present nor requested.
    method SharePage(v: VPage) returns (r: int, ghost got: Option<Frame>)
      requires Valid() && cur in flat.space && PageTables.UserPage(v) && v != TMP_PAGE
      modifies this`processes, this`flat, tables, tables.bitmap.bytes
      ensures Valid() && C.CanReturn(old(flat), got)
      ensures flat == C.ShareOf(old(flat), cur, v, got)
      ensures r == if old(flat).At(cur, v).p || IsRequested(old(flat).At(cur, v)) then 0 else -1
    {
      Current();
      got := AnyFrame();
      ShareIsOrderly(flat, cur, v, got);
      var entry := tables.PtEntryFor(v, processes[cur].cr3);
      if entry.Some? && entry.value.p {
        Reflag(v, entry.value.(shared := true));
        return 0, got;
      }
      if entry.Some? && IsRequested(entry.value) {
        var frame := UserAllocate(v);
        got := frame;
        ShareIsOrderly(old(flat), cur, v, got);
        if frame.Some? {
          MarkShared(v);
        }
        return 0, got;
      }
      r := -1;
    }

    // entry->attr |= MM_ATTR_USR_SHARED
    method MarkShared(v: VPage)
      requires Represents() && cur in flat.space && PageTables.UserPage(v) && flat.At(cur, v).p
      modifies this`flat, tables`frames
      ensures Represents() && flat == old(flat).Put(cur, v, old(flat).At(cur, v).(shared := true))
    {
      Current();
      var e := tables.PtEntryFor(v, processes[cur].cr3).value;
      Reflag(v, e.(shared := true));
    }

    // palloc: the page is taken even when the kernel zone cannot supply its table.
    method Palloc() returns (page: Option<VPage>)
      requires Valid() && cur in flat.space && cur in flat.next
      requires var v := flat.next[cur]; PageTables.UserPage(v) && v != TMP_PAGE && !flat.At(cur, v).p
      modifies this`processes, this`flat, tables`frames, tables.bitmap.bytes
      ensures Valid() && flat == C.PallocOf(old(flat), cur, page.Some?)
      ensures page.Some? ==> page.value == old(flat).next[cur]
      ensures page.None? ==> tables.Spare() == 0
    {
      Current();
      var v := processes[cur].next;
      var ok := SetAsRequested(v);
      PallocIsOrderly(flat, cur, ok);
      PallocShown(processes, old(tables.frames), tables.frames, tables.dirs, flat, cur, ok);
      processes := processes[cur := processes[cur].(next := v + 1)];
      flat := C.PallocOf(flat, cur, ok);
      page := if ok then Some(v) else None;
    }

    // set_as_requested, for a page of the current process
    method SetAsRequested(v: VPage) returns (ok: bool)
      requires Linked() && cur in flat.space && PageTables.UserPage(v) && !flat.At(cur, v).p
      modifies tables`frames, tables.bitmap.bytes
      ensures tables.Valid() && tables.UserTaken() == old(tables.UserTaken()) && (!ok ==> tables.Spare() == 0)
      ensures if ok then OnePage(old(tables.frames), tables.frames, tables.dirs, processes[cur].cr3, v, flat.At(cur, v).(rw := true))
              else SamePages(old(tables.frames), tables.frames, tables.dirs)
    {
      Current();
      var dir := processes[cur].cr3;
      var entry := tables.PtEntryFor(v, dir);
      var e := if entry.None? then REQUESTED else entry.value.(rw := true);
      assert e == flat.At(cur, v).(rw := true);
      ok := tables.SetPtEntry(v, e, dir);
    }

    // get_new_pid
    method GetNewPid() returns (pid: nat)
      requires exists p: nat :: p < |processes| && !processes[p].live
      ensures pid < |processes| && !processes[pid].live && forall q: nat :: q < pid ==> processes[q].live
    {
      pid := 0;
      while processes[pid].live
        invariant pid < |processes| && forall q: nat :: q < pid ==> processes[q].live
        decreases |processes| - pid
      {
        pid := pid + 1;
      }
    }

    /** fork. Like the source, it relies on a free PCB, on a user frame for the
        kernel stack, and on kernel frames for the directory and its tables. */
    method Fork(stack: Page) returns (child: nat, ghost k: Frame)
      requires Valid() && cur in flat.space && cur in flat.next
      requires exists p: nat :: p < |processes| && !processes[p].live
      requires cur < |processes| && tables.Spare() >= TableCount(tables.frames, processes[cur].cr3, 1) + 3
      requires !(mem.Keys <= flat.used)
      modifies this`processes, this`mem, this`flat, tables, tables.bitmap.bytes
      ensures Valid() && child !in old(flat).space && C.CanReturn(old(flat), Some(k))
      ensures flat == C.ForkOf(old(flat), cur, child, k, stack)
      ensures tables.Spare() >= old(tables.Spare() - TableCount(tables.frames, processes[cur].cr3, 1)) - 3
    {
      Current();
      child := GetNewPid();
      k := MakeChild(child, stack);
      ForkIsOrderly(old(flat), cur, child, k, stack);
    }

    // fork, once the child's pid is known
    method MakeChild(child: nat, stack: Page) returns (ghost k: Frame)
      requires Valid() && cur in flat.space && cur in flat.next
      requires child < |processes| && !Live(processes, child) && processes[cur].cr3 in tables.dirs
      requires tables.Spare() >= TableCount(tables.frames, processes[cur].cr3, 1) + 3 && !(mem.Keys <= flat.used)
      modifies this`processes, this`mem, this`flat, tables, tables.bitmap.bytes
      ensures Represents() && child !in old(flat).space && C.CanReturn(old(flat), Some(k))
      ensures flat == C.ForkOf(old(flat), cur, child, k, stack)
      ensures tables.Spare() >= old(tables.Spare() - TableCount(tables.frames, processes[cur].cr3, 1)) - 3
    {
      Current();
      assert Shows(processes, tables.frames, tables.dirs, flat, child) && flat.At(cur, TMP_PAGE) == ZERO;
      var dir, frame := ForkPages(processes[cur].cr3, stack);
      k := frame;
      ForkShown(processes, old(tables.frames), tables.frames, old(tables.dirs), dir, flat, cur, child, k, stack);
      SetPcb(child, Pcb(true, dir, processes[cur].next), C.ForkOf(flat, cur, child, k, stack));
    }

    // The child's directory: a new one, the father's pages, a kernel stack.
    method ForkPages(father: Frame, stack: Page) returns (dir: Frame, frame: Frame)
      requires tables.Valid() && father in tables.dirs && Lookup(tables.frames, father, TMP_PAGE) == ZERO
      requires forall f :: f in mem <==> tables.UserFrame(f)
      requires tables.Spare() >= TableCount(tables.frames, father, 1) + 3 && !(mem.Keys <= tables.UserTaken())
      modifies this`mem, tables, tables.bitmap.bytes
      ensures tables.Valid() && dir !in old(tables.dirs) && tables.dirs == old(tables.dirs) + {dir}
      ensures frame in old(mem) && frame !in old(tables.UserTaken())
      ensures tables.UserTaken() == old(tables.UserTaken()) + {frame} && mem == old(mem)[frame := stack]
      ensures ForkedTables(old(tables.frames), tables.frames, old(tables.dirs), father, dir, frame)
      ensures tables.Spare() >= old(tables.Spare() - TableCount(tables.frames, father, 1)) - 3
    {
      dir := tables.DirNew();
      ghost var m1 := tables.frames;
      TableCountSame(old(tables.frames), m1, father, 1);
      tables.CopyNonkernelPages(father, dir);
      ghost var m2 := tables.frames;
      frame := CreateChildKernelStack(father, dir, stack);
      ForkedInStages(old(tables.frames), m1, m2, tables.frames, old(tables.dirs), father, dir, frame);
    }

    method MapKernelStack(child: Frame) returns (frame: Frame)
      requires tables.Valid() && child in tables.dirs && tables.Spare() >= 2
      requires (forall f :: f in mem <==> tables.UserFrame(f)) && !(mem.Keys <= tables.UserTaken())
      modifies tables`frames, tables.bitmap.bytes
      ensures tables.Valid() && frame in mem && frame !in old(tables.UserTaken()) && tables.Spare() >= old(tables.Spare()) - 1
      ensures tables.UserTaken() == old(tables.UserTaken()) + {frame}
      ensures OnePage(old(tables.frames), tables.frames, tables.dirs, child, KSTACK, Mapped(frame, false))
    {
      var got := tables.Alloc();
      frame := got.value;
      tables.MapFrame(frame, KSTACK, child, false);
    }

    // create_child_kernel_stack: a frame of its own, filled through the scratch page.
    method CreateChildKernelStack(father: Frame, child: Frame, stack: Page) returns (frame: Frame)
      requires tables.Valid() && father in tables.dirs && child in tables.dirs && father != child
      requires forall f :: f in mem <==> tables.UserFrame(f)
      requires tables.Spare() >= 2 && !(mem.Keys <= tables.UserTaken()) && Lookup(tables.frames, father, TMP_PAGE) == ZERO
      modifies this`mem, tables`frames, tables.bitmap.bytes
      ensures tables.Valid() && frame in old(mem) && frame !in old(tables.UserTaken()) && tables.Spare() >= old(tables.Spare()) - 2
      ensures tables.UserTaken() == old(tables.UserTaken()) + {frame} && mem == old(mem)[frame := stack]
      ensures OnePage(old(tables.frames), tables.frames, tables.dirs, child, KSTACK, Mapped(frame, false))
    {
      frame := MapKernelStack(child);
      ghost var mapped := tables.frames;
      assert Lookup(mapped, father, TMP_PAGE) == ZERO;
      FillThrough(TMP_PAGE, frame, stack, father);
      OnePageStays(old(tables.frames), mapped, tables.frames, tables.dirs, child, KSTACK, Mapped(frame, false));
    }
  }

  lemma OnePageStays(m: Memory, m1: Memory, m2: Memory, dirs: set<Frame>, dir: Frame, v: VPage, e: Entry)
    requires OnePage(m, m1, dirs, dir, v, e) && SamePages(m1, m2, dirs)
    ensures OnePage(m, m2, dirs, dir, v, e)
  {
  }

  lemma TableCountSame(m: Memory, m': Memory, dir: Frame, from: nat)
    requires forall i :: HasTable(m, dir, i) <==> HasTable(m', dir, i)
    ensures TableCount(m, dir, from) == TableCount(m', dir, from)
    decreases ENTRIES - from
  {
  }

  // What the tables show after fork.
  ghost predicate ForkedTables(m: Memory, m': Memory, dirs: set<Frame>, father: Frame, dir: Frame, k: Frame) {
    && (forall d, w: VPage :: d in dirs && d != father ==> Lookup(m', d, w) == Lookup(m, d, w))
    && (forall w: VPage :: Lookup(m', father, w) ==
          if w == KSTACK then Lookup(m, father, w) else ForkedParent(Lookup(m, father, w)))
    && (forall w: VPage :: Lookup(m', dir, w) == if w == KSTACK then Mapped(k, false) else ForkedChild(Lookup(m, father, w)))
  }

  lemma ForkedInStages(m0: Memory, m1: Memory, m2: Memory, m3: Memory, dirs: set<Frame>, father: Frame, dir: Frame, k: Frame)
    requires SamePages(m0, m1, dirs) && father in dirs && dir !in dirs
    requires Copied(m1, m2, dirs + {dir}, father, dir, PAGES)
    requires OnePage(m2, m3, dirs + {dir}, dir, KSTACK, Mapped(k, false))
    ensures ForkedTables(m0, m3, dirs, father, dir, k)
  {
  }

  // With the child's PCB filled in, that is the flat machine's fork.
  lemma ForkShown(ps: seq<Pcb>, m: Memory, m': Memory, dirs: set<Frame>, dir: Frame,
                  s: C.State, p: nat, c: nat, k: Frame, stack: Page)
    requires AllShown(ps, m, dirs, s) && p in s.space && p in s.next && c < |ps| && !Live(ps, c) && c !in s.space
    requires dir !in dirs && Live(ps, p) && ps[p].cr3 in dirs && ForkedTables(m, m', dirs, ps[p].cr3, dir, k)
    ensures AllShown(ps[c := Pcb(true, dir, ps[p].next)], m', dirs + {dir}, C.ForkOf(s, p, c, k, stack))
  {
    var ps', s' := ps[c := Pcb(true, dir, ps[p].next)], C.ForkOf(s, p, c, k, stack);
    C.ForkEntries(s, p, c, k, stack);
    assert Shows(ps, m, dirs, s, p);
    forall q: nat ensures Shows(ps', m', dirs + {dir}, s', q) {
      assert Shows(ps, m, dirs, s, q) && OwnDirectory(ps, p, q);
      forall v ensures s'.At(q, v) == EntryOf(ps', m', q, v) {
        assert s.At(q, v) == EntryOf(ps, m, q, v) && s.At(p, v) == EntryOf(ps, m, p, v);
      }
    }
    forall q: nat, r: nat ensures OwnDirectory(ps', q, r) {
      assert OwnDirectory(ps, q, r) && Shows(ps, m, dirs, s, q) && Shows(ps, m, dirs, s, r);
    }
  }

  lemma ForkIsOrderly(s: C.State, p: nat, c: nat, k: Frame, stack: Page)
    requires Orderly(s) && p in s.space && p in s.next && c !in s.space && C.CanReturn(s, Some(k))
    ensures Orderly(C.ForkOf(s, p, c, k, stack))
  {
    C.ForkKeepsPlaced(s, p, c, k, stack);
    C.ForkEntries(s, p, c, k, stack);
    assert s.At(p, TMP_PAGE) == ZERO;
  }

  lemma ShareIsOrderly(s: C.State, p: nat, v: VPage, got: Option<Frame>)
    requires Orderly(s) && p in s.space && C.CanReturn(s, got) && v != TMP_PAGE
    ensures Orderly(C.ShareOf(s, p, v, got))
  {
    C.ShareKeepsPlaced(s, p, v, got);
    if IsRequested(s.At(p, v)) {
      if got.None? {
        ExitIsOrderly(s, p);
      } else {
        AllocateIsOrderly(s, p, v, got.value, true);
      }
    }
  }

  lemma PallocIsOrderly(s: C.State, p: nat, ok: bool)
    requires Orderly(s) && p in s.space && p in s.next && s.next[p] != TMP_PAGE && !s.At(p, s.next[p]).p
    ensures Orderly(C.PallocOf(s, p, ok))
  {
    C.PallocKeepsPlaced(s, p, ok);
    forall q ensures C.PallocOf(s, p, ok).At(q, TMP_PAGE) == ZERO {
      assert s.(next := s.next[p := s.next[p] + 1]).At(q, TMP_PAGE) == s.At(q, TMP_PAGE);
    }
  }

  lemma PallocShown(ps: seq<Pcb>, m: Memory, m': Memory, dirs: set<Frame>, s: C.State, p: nat, ok: bool)
    requires AllShown(ps, m, dirs, s) && Live(ps, p) && p in s.space && p in s.next && s.next[p] == ps[p].next
    requires PageTables.UserPage(ps[p].next)
    requires if ok then OnePage(m, m', dirs, ps[p].cr3, ps[p].next, s.At(p, ps[p].next).(rw := true)) else SamePages(m, m', dirs)
    ensures AllShown(ps[p := ps[p].(next := ps[p].next + 1)], m', dirs, C.PallocOf(s, p, ok))
  {
    var v, ps' := ps[p].next, ps[p := ps[p].(next := ps[p].next + 1)];
    var s1 := s.(next := s.next[p := v + 1]);
    assert forall q, w :: s1.At(q, w) == s.At(q, w);
    forall q: nat ensures Shows(ps', m, dirs, s1, q) {
      assert Shows(ps, m, dirs, s, q);
      forall w ensures s1.At(q, w) == EntryOf(ps', m, q, w) {
        assert s.At(q, w) == EntryOf(ps, m, q, w);
      }
    }
    forall q: nat, r: nat ensures OwnDirectory(ps', q, r) {
      assert OwnDirectory(ps, q, r);
    }
    if ok {
      PutShows(ps', m, m', dirs, s1, p, v, s.At(p, v).(rw := true));
    } else {
      StillShows(ps', m, m', dirs, s1, s1);
    }
  }

  lemma CopySource(s: C.State, p: nat, v: VPage)
    requires Orderly(s) && s.At(p, v).p
    ensures s.At(p, v).base in s.mem && s.At(p, TMP_PAGE) == ZERO
    ensures p in s.space && s.HeldElsewhere(p, v) ==> C.CopyOnWrite(s, p, v, None) == C.ExitOf(s, p)
  {
  }

  lemma CopyIsOrderly(s: C.State, p: nat, v: VPage, f: Frame)
    requires Orderly(s) && p in s.space && C.CanReturn(s, Some(f)) && v != TMP_PAGE
    requires s.At(p, v).p && IsToBeCopiedOnWrite(s.At(p, v)) && s.HeldElsewhere(p, v) && s.At(p, v).base in s.mem
    ensures C.CopyOnWrite(s, p, v, Some(f)) ==
              s.(mem := s.mem[f := s.mem[s.At(p, v).base]], used := s.used + {f}).Put(p, v, Mapped(f, s.At(p, v).us))
    ensures Orderly(C.CopyOnWrite(s, p, v, Some(f)))
  {
    FaultIsOrderly(s, p, v, Some(f));
  }

  lemma FaultIsOrderly(s: C.State, p: nat, v: VPage, got: Option<Frame>)
    requires Orderly(s) && p in s.space && C.CanReturn(s, got) && v != TMP_PAGE
    ensures Orderly(C.PageFault(s, p, v, got))
  {
    C.FaultKeepsPlaced(s, p, v, got);
    var s' := C.PageFault(s, p, v, got);
    if p in s'.space {
      C.FaultChangesOnePage(s, p, v, got);
    } else {
      ExitIsOrderly(s, p);
    }
  }

  lemma StillShows(ps: seq<Pcb>, m: Memory, m': Memory, dirs: set<Frame>, s: C.State, s': C.State)
    requires AllShown(ps, m, dirs, s) && SamePages(m, m', dirs) && s'.space == s.space && s'.next == s.next
    ensures AllShown(ps, m', dirs, s')
  {
    forall p: nat ensures Shows(ps, m', dirs, s', p) {
      SamePagesShown(ps, m, m', dirs, s, s', p);
    }
  }

  lemma AllocateIsOrderly(s: C.State, p: nat, v: VPage, f: Frame, us: bool)
    requires Orderly(s) && p in s.space && C.CanReturn(s, Some(f)) && v != TMP_PAGE && us
    ensures Orderly(C.Allocate(s, p, v, Some(f), us))
  {
    C.AllocateKeepsPlaced(s, p, v, Some(f), us);
    assert forall q :: s.(used := s.used + {f}).At(q, TMP_PAGE) == s.At(q, TMP_PAGE);
  }

  lemma PutShows(ps: seq<Pcb>, m: Memory, m': Memory, dirs: set<Frame>, s: C.State, p: nat, v: VPage, e: Entry)
    requires AllShown(ps, m, dirs, s) && Live(ps, p) && PageTables.UserPage(v) && p in s.space
    requires OnePage(m, m', dirs, ps[p].cr3, v, e)
    ensures AllShown(ps, m', dirs, s.Put(p, v, e))
  {
    assert Shows(ps, m, dirs, s, p);
    forall q: nat ensures Shows(ps, m', dirs, s.Put(p, v, e), q) {
      assert Shows(ps, m, dirs, s, q) && OwnDirectory(ps, p, q);
      forall w ensures s.Put(p, v, e).At(q, w) == EntryOf(ps, m', q, w) {
        assert s.At(q, w) == EntryOf(ps, m, q, w);
      }
    }
  }

  lemma ExitIsOrderly(s: C.State, p: nat)
    requires Orderly(s) && p in s.space
    ensures Orderly(C.ExitOf(s, p))
  {
    C.ExitKeepsPlaced(s, p);
  }

  lemma DropDirectoryShown(ps: seq<Pcb>, m: Memory, dirs: set<Frame>, s: C.State, p: nat)
    requires AllShown(ps, m, dirs, s) && Live(ps, p)
    ensures OthersShown(ps, m, dirs - {ps[p].cr3}, s, p)
  {
    forall q: nat | q != p ensures Shows(ps, m, dirs - {ps[p].cr3}, s, q) {
      assert Shows(ps, m, dirs, s, q) && OwnDirectory(ps, p, q);
    }
  }

  // Clearing the PCB of p, once its frames are gone, is the flat machine's exit.
  lemma WithoutProcess(ps: seq<Pcb>, m: Memory, dirs: set<Frame>, s: C.State, p: nat)
    requires OthersShown(ps, m, dirs, s, p) && p < |ps| && forall q: nat, r: nat :: OwnDirectory(ps, q, r)
    ensures AllShown(ps[p := ps[p].(live := false)], m, dirs, C.ExitOf(s, p))
  {
    var ps' := ps[p := ps[p].(live := false)];
    forall q: nat ensures Shows(ps', m, dirs, C.ExitOf(s, p), q) {
      assert q != p ==> Shows(ps, m, dirs, s, q);
      forall v ensures C.ExitOf(s, p).At(q, v) == EntryOf(ps', m, q, v) {
        assert q != p ==> s.At(q, v) == EntryOf(ps, m, q, v);
      }
    }
    forall q: nat, r: nat ensures OwnDirectory(ps', q, r) {
      assert OwnDirectory(ps, q, r);
    }
  }

  lemma SamePagesShown(ps: seq<Pcb>, m: Memory, m': Memory, dirs: set<Frame>, s: C.State, s': C.State, p: nat)
    requires Shows(ps, m, dirs, s, p) && SamePages(m, m', dirs) && s'.space == s.space && s'.next == s.next
    ensures Shows(ps, m', dirs, s', p)
  {
    forall v ensures s'.At(p, v) == EntryOf(ps, m', p, v) {
      assert s.At(p, v) == EntryOf(ps, m, p, v);
    }
  }

  // The table in one slot of the directory, if there is one.
  ghost function TableIn(m: Memory, dir: Frame, i: nat): set<Frame> {
    if HasTable(m, dir, i) then {TableOf(m, dir, i)} else {}
  }

  // Of the table t of slot pde, the pages below pte are released.
  ghost predicate Swept(m0: Memory, m: Memory, t: Frame, s: C.State, p: nat, pde: nat, pte: nat, user0: set<Frame>, user: set<Frame>) {
    var swept :=
      && t in m && m == m0[t := m[t]]
      && (forall i :: pte <= i < ENTRIES ==> m[t][i] == s.At(p, pde * ENTRIES + i))
      && user == user0 - FreedIn(s, p, pde * ENTRIES, pde * ENTRIES + pte);
    swept
  }

  lemma PageOfSlot(pde: nat, pte: nat)
    requires 0 < pde < ENTRIES && pte < ENTRIES
    ensures (pde * ENTRIES + pte) % ENTRIES == pte && PageTables.UserPage(pde * ENTRIES + pte)
  {
  }

  lemma SweptPage(m0: Memory, m: Memory, t: Frame, s: C.State, p: nat, pde: nat, pte: nat, user0: set<Frame>, user: set<Frame>)
    requires Swept(m0, m, t, s, p, pde, pte, user0, user) && pte < ENTRIES
    ensures t in m && m[t][pte] == s.At(p, pde * ENTRIES + pte)
  {
  }

  lemma NextSwept(m0: Memory, m: Memory, m': Memory, t: Frame, s: C.State, p: nat, pde: nat, pte: nat,
                  user0: set<Frame>, user: set<Frame>, user': set<Frame>)
    requires Swept(m0, m, t, s, p, pde, pte, user0, user) && pte < ENTRIES && t in m && t in m' && m' == m[t := m'[t]]
    requires forall i :: 0 <= i < ENTRIES && i != (pde * ENTRIES + pte) % ENTRIES ==> m'[t][i] == m[t][i]
    requires user' == user - ReleasedFrame(s, p, pde * ENTRIES + pte)
    ensures Swept(m0, m', t, s, p, pde, pte + 1, user0, user')
  {
    FreedInStep(s, p, pde * ENTRIES, pde * ENTRIES + pte);
  }

  // Of a teardown, the slots below pde are done.
  ghost predicate GivenBack(m0: Memory, dir: Frame, s: C.State, p: nat, pde: nat, kernel0: set<Frame>, spare0: nat,
                            user: set<Frame>, kernel: set<Frame>, spare: nat)
  {
    var back :=
      && user == s.used - FreedIn(s, p, FIRST_PAGE, pde * ENTRIES)
      && kernel == kernel0 - TablesUpTo(m0, dir, pde)
      && spare + TableCount(m0, dir, pde) == spare0 + TableCount(m0, dir, 1);
    back
  }

  lemma NextGivenBack(m0: Memory, dir: Frame, s: C.State, p: nat, pde: nat, kernel0: set<Frame>, spare0: nat,
                      user: set<Frame>, kernel: set<Frame>, spare: nat, user': set<Frame>, kernel': set<Frame>, spare': nat)
    requires GivenBack(m0, dir, s, p, pde, kernel0, spare0, user, kernel, spare) && 1 <= pde < ENTRIES
    requires user' == user - FreedIn(s, p, pde * ENTRIES, pde * ENTRIES + ENTRIES)
    requires kernel' == kernel - TableIn(m0, dir, pde) && spare' == spare + if HasTable(m0, dir, pde) then 1 else 0
    ensures GivenBack(m0, dir, s, p, pde + 1, kernel0, spare0, user', kernel', spare')
  {
    FreedInSplits(s, p, FIRST_PAGE, pde * ENTRIES, pde * ENTRIES + ENTRIES);
    NextTables(m0, dir, pde, kernel0);
  }

  lemma NextTables(m: Memory, dir: Frame, i: nat, kernel: set<Frame>)
    requires 1 <= i < ENTRIES
    ensures kernel - TablesUpTo(m, dir, i) - TableIn(m, dir, i) == kernel - TablesUpTo(m, dir, i + 1)
    ensures TableCount(m, dir, i) == (if HasTable(m, dir, i) then 1 else 0) + TableCount(m, dir, i + 1)
  {
  }

  // The frames that teardown of p releases for page v: one or none.
  ghost function ReleasedFrame(s: C.State, p: nat, v: VPage): set<Frame> {
    if C.ReleasedAt(s, p, v) then {s.At(p, v).base} else {}
  }

  ghost function FreedIn(s: C.State, p: nat, lo: nat, hi: nat): set<Frame> {
    set v: VPage | lo <= v < hi && C.ReleasedAt(s, p, v) :: s.At(p, v).base
  }

  lemma FreedInStep(s: C.State, p: nat, lo: nat, v: nat)
    requires lo <= v
    ensures FreedIn(s, p, lo, v + 1) == FreedIn(s, p, lo, v) + ReleasedFrame(s, p, v)
  {
  }

  lemma FreedInSplits(s: C.State, p: nat, lo: nat, mid: nat, hi: nat)
    requires lo <= mid <= hi
    ensures FreedIn(s, p, lo, hi) == FreedIn(s, p, lo, mid) + FreedIn(s, p, mid, hi)
    ensures s.used - FreedIn(s, p, lo, mid) - FreedIn(s, p, mid, hi) == s.used - FreedIn(s, p, lo, hi)
  {
  }

  // The pages of one directory slot are the entries of its table, or absent.
  lemma TableShows(ps: seq<Pcb>, m: Memory, s: C.State, p: nat, pde: nat)
    requires Live(ps, p) && 0 < pde < ENTRIES && ps[p].cr3 in m
    requires HasTable(m, ps[p].cr3, pde) ==> TableOf(m, ps[p].cr3, pde) in m
    requires forall v {:trigger s.At(p, v)} :: s.At(p, v) == EntryOf(ps, m, p, v)
    ensures HasTable(m, ps[p].cr3, pde) ==>
              forall pte :: 0 <= pte < ENTRIES ==> m[TableOf(m, ps[p].cr3, pde)][pte] == s.At(p, pde * ENTRIES + pte)
    ensures !HasTable(m, ps[p].cr3, pde) ==> FreedIn(s, p, pde * ENTRIES, pde * ENTRIES + ENTRIES) == {}
  {
    forall pte | 0 <= pte < ENTRIES
      ensures s.At(p, pde * ENTRIES + pte) ==
              if HasTable(m, ps[p].cr3, pde) then m[TableOf(m, ps[p].cr3, pde)][pte] else ZERO
    {
      var v := pde * ENTRIES + pte;
      assert v / ENTRIES == pde && v % ENTRIES == pte;
    }
    forall v: VPage | pde * ENTRIES <= v < pde * ENTRIES + ENTRIES && !HasTable(m, ps[p].cr3, pde) ensures !s.At(p, v).p {
      assert v == pde * ENTRIES + (v - pde * ENTRIES);
    }
  }

  lemma FreedInAll(ps: seq<Pcb>, m: Memory, s: C.State, p: nat)
    requires Live(ps, p) && p in s.space
    requires forall v {:trigger s.At(p, v)} :: s.At(p, v) == EntryOf(ps, m, p, v)
    ensures FreedIn(s, p, FIRST_PAGE, PAGES) == C.Freed(s, p)
  {
    forall f | f in C.Freed(s, p) ensures f in FreedIn(s, p, FIRST_PAGE, PAGES) {
      var v :| v in s.space[p] && C.ReleasedAt(s, p, v) && s.At(p, v).base == f;
      assert PageTables.UserPage(v);
    }
  }
}
