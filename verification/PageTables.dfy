// Two-level page tables kept in kernel-zone frames. Seen through Lookup, a
// directory is a flat map from pages to entries; the methods here change one
// page of one directory and nothing else.
module PageTables {
  import opened Common
  import opened Paging
  import opened FrameBitmap

  const ENTRIES: nat := 1024
  const FIRST_PAGE: VPage := ENTRIES              // directory slot 0 is the kernel's own table
  const PAGES: nat := ENTRIES * ENTRIES

  type Table = t: seq<Entry> | |t| == ENTRIES witness seq(ENTRIES, _ => ZERO)
  type Memory = map<Frame, Table>

  predicate KernelFrame(f: Frame) {
    FIRST_FRAME <= f < USER_FRAME
  }

  function Cleared(): Table {
    seq(ENTRIES, _ => ZERO)
  }

  predicate UserPage(v: VPage) {
    FIRST_PAGE <= v < PAGES
  }

  // mm_pt_entry_for, with the entry that an absent table stands for.
  function Lookup(m: Memory, dir: Frame, v: VPage): Entry {
    if !UserPage(v) || dir !in m then ZERO
    else
      var pde := m[dir][v / ENTRIES];
      if !pde.p || pde.base !in m then ZERO else m[pde.base][v % ENTRIES]
  }

  /** It is the walk of the processor for every address of the page: bits 31 to 22 are
      the slot of the directory, bits 21 to 12 that of the table. */
  lemma LookupIsHardwareWalk(m: Memory, dir: Frame, addr: nat)
    requires 0x40_0000 <= addr < 0x1_0000_0000 && dir in m
    requires m[dir][addr / 0x40_0000].p && m[dir][addr / 0x40_0000].base in m
    ensures Lookup(m, dir, addr / 0x1000) == m[m[dir][addr / 0x40_0000].base][addr / 0x1000 % 0x400]
  {
    assert addr / 0x1000 / 0x400 == addr / 0x40_0000;
  }

  // The directories show the same pages in both memories.
  ghost predicate SamePages(m: Memory, m': Memory, dirs: set<Frame>) {
    forall d, w: VPage :: d in dirs ==> Lookup(m', d, w) == Lookup(m, d, w)
  }

  // They show the same pages, except that page v of `dir` is now e.
  ghost predicate OnePage(m: Memory, m': Memory, dirs: set<Frame>, dir: Frame, v: VPage, e: Entry) {
    forall d, w: VPage :: d in dirs ==> Lookup(m', d, w) == if d == dir && w == v then e else Lookup(m, d, w)
  }

  // The table frame in slot i of a directory, if there is one.
  predicate HasTable(m: Memory, dir: Frame, i: nat) {
    dir in m && 0 < i < ENTRIES && m[dir][i].p
  }

  function TableOf(m: Memory, dir: Frame, i: nat): Frame
    requires HasTable(m, dir, i)
  {
    m[dir][i].base
  }

  /** The tables reachable from the directories form a forest of allocated
      kernel frames: no frame is two tables, or a table and a directory. */
  ghost predicate Forest(m: Memory, dirs: set<Frame>, taken: set<Frame>) {
    && (forall f :: f in m <==> KernelFrame(f))
    && dirs <= taken * m.Keys
    && (forall d, i :: d in dirs && HasTable(m, d, i) ==> TableOf(m, d, i) in (taken - dirs) * m.Keys)
    && (forall d, i, d', i' {:trigger Apart(m, d, i, d', i')} :: d in dirs && d' in dirs ==> Apart(m, d, i, d', i'))
  }

  ghost predicate Apart(m: Memory, d: Frame, i: nat, d': Frame, i': nat) {
    HasTable(m, d, i) && HasTable(m, d', i') && TableOf(m, d, i) == TableOf(m, d', i') ==> d == d' && i == i'
  }

  // Which frames are allocated matters only for the directories and tables.
  lemma ForestTaken(m: Memory, dirs: set<Frame>, taken: set<Frame>, taken': set<Frame>)
    requires Forest(m, dirs, taken) && dirs <= taken'
    requires forall d, i :: d in dirs && HasTable(m, d, i) ==> TableOf(m, d, i) in taken'
    ensures Forest(m, dirs, taken')
  {
  }

  // The same directories, pointing to the same tables, are the same forest.
  lemma SameForest(m: Memory, m': Memory, dirs: set<Frame>, taken: set<Frame>)
    requires Forest(m, dirs, taken) && m'.Keys == m.Keys && forall d :: d in dirs ==> m'[d] == m[d]
    ensures Forest(m', dirs, taken)
    ensures forall d, i :: d in dirs ==> (HasTable(m', d, i) <==> HasTable(m, d, i))
  {
    assert forall d, i :: d in dirs ==> (HasTable(m', d, i) <==> HasTable(m, d, i));
    forall d, i, d', i' | d in dirs && d' in dirs ensures Apart(m', d, i, d', i') {
      assert Apart(m, d, i, d', i');
    }
  }

  // Writing one entry of one table changes one page of one directory.
  lemma StoreEntry(m: Memory, dirs: set<Frame>, taken: set<Frame>, dir: Frame, v: VPage, e: Entry)
    requires Forest(m, dirs, taken) && dir in dirs && UserPage(v) && HasTable(m, dir, v / ENTRIES)
    ensures var t := TableOf(m, dir, v / ENTRIES);
            var m' := m[t := m[t][v % ENTRIES := e]];
            && Forest(m', dirs, taken)
            && (forall d, i :: d in dirs ==> (HasTable(m', d, i) <==> HasTable(m, d, i)))
            && OnePage(m, m', dirs, dir, v, e)
  {
    var t := TableOf(m, dir, v / ENTRIES);
    var m' := m[t := m[t][v % ENTRIES := e]];
    SameForest(m, m', dirs, taken);
    forall d, w: VPage | d in dirs
      ensures Lookup(m', d, w) == if d == dir && w == v then e else Lookup(m, d, w)
    {
      assert Apart(m, d, w / ENTRIES, dir, v / ENTRIES);
    }
  }

  // Hanging a cleared table into an empty slot changes no page.
  lemma AddTable(m: Memory, dirs: set<Frame>, taken: set<Frame>, dir: Frame, i: nat, t: Frame)
    requires Forest(m, dirs, taken) && dir in dirs && 0 < i < ENTRIES && !HasTable(m, dir, i)
    requires KernelFrame(t) && t !in taken
    ensures var m' := m[dir := m[dir][i := Mapped(t, true)]][t := Cleared()];
            && Forest(m', dirs, taken + {t})
            && (forall d, j :: d in dirs ==> (HasTable(m', d, j) <==> HasTable(m, d, j) || (d == dir && j == i)))
            && SamePages(m, m', dirs)
  {
    var m' := m[dir := m[dir][i := Mapped(t, true)]][t := Cleared()];
    assert forall d, j :: d in dirs && HasTable(m, d, j) ==> HasTable(m', d, j) && TableOf(m', d, j) == TableOf(m, d, j) != t;
    assert forall d, j :: d in dirs && HasTable(m', d, j) && !(d == dir && j == i) ==> HasTable(m, d, j);
    assert HasTable(m', dir, i) && TableOf(m', dir, i) == t;
    forall d, j, d', j' | d in dirs && d' in dirs ensures Apart(m', d, j, d', j') {
      assert Apart(m, d, j, d', j');
    }
    forall d, w: VPage | d in dirs ensures Lookup(m', d, w) == Lookup(m, d, w) {
      if UserPage(w) && HasTable(m, d, w / ENTRIES) {
        assert TableOf(m, d, w / ENTRIES) !in dirs;
      }
    }
  }

  // A cleared frame is a directory of absent pages.
  lemma AddDirectory(m: Memory, dirs: set<Frame>, taken: set<Frame>, dir: Frame, pde: Entry)
    requires Forest(m, dirs, taken) && KernelFrame(dir) && dir !in taken
    ensures var m' := m[dir := Cleared()[0 := pde]];
            && Forest(m', dirs + {dir}, taken + {dir})
            && SamePages(m, m', dirs)
            && (forall w: VPage :: Lookup(m', dir, w) == ZERO)
            && (forall d, i :: d in dirs + {dir} && HasTable(m', d, i) ==> d in dirs && HasTable(m, d, i))
  {
    var m' := m[dir := Cleared()[0 := pde]];
    assert forall i :: !HasTable(m', dir, i);
    SameForest(m, m', dirs, taken);
    ForestTaken(m', dirs, taken, taken + {dir});
    forall d, i, d', i' | d in dirs + {dir} && d' in dirs + {dir} ensures Apart(m', d, i, d', i') {
      assert d in dirs && d' in dirs ==> Apart(m', d, i, d', i');
    }
    forall d, w: VPage | d in dirs ensures Lookup(m', d, w) == Lookup(m, d, w) {
      if UserPage(w) && HasTable(m, d, w / ENTRIES) {
        assert TableOf(m, d, w / ENTRIES) in taken;
      }
    }
  }

  // The frame is neither a directory nor a table of one.
  ghost predicate Detached(m: Memory, dirs: set<Frame>, t: Frame) {
    t !in dirs && forall d, i :: d in dirs && HasTable(m, d, i) ==> TableOf(m, d, i) != t
  }

  // Nobody sees a write to a detached frame.
  lemma StoreDetached(m: Memory, dirs: set<Frame>, taken: set<Frame>, t: Frame, table: Table)
    requires Forest(m, dirs, taken) && Detached(m, dirs, t) && KernelFrame(t)
    ensures Forest(m[t := table], dirs, taken)
    ensures forall f :: Detached(m, dirs, f) ==> Detached(m[t := table], dirs, f)
    ensures SamePages(m, m[t := table], dirs)
  {
    var m' := m[t := table];
    SameForest(m, m', dirs, taken);
    forall d, w: VPage | d in dirs ensures Lookup(m', d, w) == Lookup(m, d, w) {
      if UserPage(w) && HasTable(m, d, w / ENTRIES) {
        assert TableOf(m, d, w / ENTRIES) != t;
      }
    }
  }

  /** The tables of `dir`, dropped when memory was m0, belong to nobody else, and
      those from slot `from` on still hold what they held then. */
  ghost predicate OwnTables(m0: Memory, m: Memory, dirs: set<Frame>, dir: Frame, from: nat, kernelTable: Frame) {
    && m.Keys == m0.Keys && dir in m && m[dir] == m0[dir] && Detached(m, dirs, dir) && KernelFrame(dir) && dir != kernelTable
    && (forall i :: HasTable(m0, dir, i) ==>
          && Detached(m, dirs, TableOf(m0, dir, i)) && KernelFrame(TableOf(m0, dir, i))
          && TableOf(m0, dir, i) != kernelTable && TableOf(m0, dir, i) != dir
          && (from <= i ==> TableOf(m0, dir, i) in m && m[TableOf(m0, dir, i)] == m0[TableOf(m0, dir, i)]))
    && (forall i, j {:trigger Apart(m0, dir, i, dir, j)} :: Apart(m0, dir, i, dir, j))
  }

  lemma NextOwnTable(m0: Memory, m: Memory, m': Memory, dirs: set<Frame>, dir: Frame, i: nat, kernelTable: Frame)
    requires OwnTables(m0, m, dirs, dir, i, kernelTable) && HasTable(m0, dir, i)
    requires TableOf(m0, dir, i) in m' && m' == m[TableOf(m0, dir, i) := m'[TableOf(m0, dir, i)]]
    ensures OwnTables(m0, m', dirs, dir, i + 1, kernelTable)
  {
    var t := TableOf(m0, dir, i);
    assert forall d, j :: d in dirs ==> (HasTable(m', d, j) <==> HasTable(m, d, j));
    forall j | HasTable(m0, dir, j) && i + 1 <= j ensures TableOf(m0, dir, j) != t {
      assert Apart(m0, dir, i, dir, j);
    }
  }

  // The directory and its tables from slot `from` on are allocated.
  ghost predicate StillTaken(m0: Memory, dir: Frame, from: nat, taken: set<Frame>) {
    dir in taken && forall i :: from <= i && HasTable(m0, dir, i) ==> TableOf(m0, dir, i) in taken
  }

  lemma NextStillTaken(m0: Memory, m: Memory, dirs: set<Frame>, dir: Frame, i: nat, kernelTable: Frame, taken: set<Frame>)
    requires OwnTables(m0, m, dirs, dir, i, kernelTable) && HasTable(m0, dir, i) && StillTaken(m0, dir, i, taken)
    ensures StillTaken(m0, dir, i + 1, taken - {TableOf(m0, dir, i)})
  {
    forall j | i + 1 <= j && HasTable(m0, dir, j) ensures TableOf(m0, dir, j) != TableOf(m0, dir, i) {
      assert Apart(m0, dir, i, dir, j);
    }
  }

  // The tables of the directory in slots from 1 to below `to`.
  ghost function TablesUpTo(m: Memory, dir: Frame, to: nat): set<Frame> {
    set i | 1 <= i < to && HasTable(m, dir, i) :: TableOf(m, dir, i)
  }

  // Once a directory is dropped, it and its tables are detached.
  lemma DropDirectory(m: Memory, dirs: set<Frame>, taken: set<Frame>, dir: Frame)
    requires Forest(m, dirs, taken) && dir in dirs
    ensures Forest(m, dirs - {dir}, taken) && Detached(m, dirs - {dir}, dir)
    ensures forall i :: HasTable(m, dir, i) ==> Detached(m, dirs - {dir}, TableOf(m, dir, i)) && KernelFrame(TableOf(m, dir, i))
  {
    forall i, d, j | HasTable(m, dir, i) && d in dirs - {dir} && HasTable(m, d, j)
      ensures TableOf(m, d, j) != TableOf(m, dir, i)
    {
      assert Apart(m, d, j, dir, i);
    }
  }

  class Tables {
    const bitmap: Bitmap
    const kernelTable: Frame
    var frames: Memory      // contents of the kernel-zone frames
    ghost var dirs: set<Frame>

    // mm_init: the kernel's own table, shared by every directory, comes first.
    constructor (bitmap: Bitmap, memory: Memory)
      requires bitmap.Valid() && bitmap.Free(Kernel) != {} && forall f :: f in memory <==> KernelFrame(f)
      modifies bitmap.bytes
      ensures Valid() && this.bitmap == bitmap && dirs == {}
    {
      var address := bitmap.Seek(Kernel);
      this.bitmap := bitmap;
      this.kernelTable := address / PAGE_SIZE;
      this.frames := memory;
      this.dirs := {};
    }

    ghost predicate Valid()
      reads this, bitmap.bytes
    {
      && bitmap.Valid()
      && Forest(frames, dirs, Taken())
      && kernelTable in Taken() * frames.Keys && Detached(frames, dirs, kernelTable)
    }

    ghost function Taken(): set<Frame>
      reads this, bitmap.bytes
    {
      bitmap.Used()
    }

    // The allocated frames of the user zone.
    ghost function UserTaken(): set<Frame>
      reads bitmap.bytes
    {
      set f | f in bitmap.Used() && f >= USER_FRAME
    }

    // The allocated frames of the kernel zone.
    ghost function KernelTaken(): set<Frame>
      reads bitmap.bytes
    {
      set f | f in bitmap.Used() && f < USER_FRAME
    }

    // mm_pt_entry_for
    function PtEntryFor(v: VPage, dir: Frame): (e: Option<Entry>)
      requires Valid() && dir in dirs && UserPage(v)
      reads this, bitmap.bytes
      ensures Lookup(frames, dir, v) == if e.Some? then e.value else ZERO
    {
      var pde := frames[dir][v / ENTRIES];
      if !pde.p then None
      else
        assert HasTable(frames, dir, v / ENTRIES);
        Some(frames[pde.base][v % ENTRIES])
    }

    // The number of frames the kernel zone can still supply.
    ghost function Spare(): nat
      requires bitmap.Valid()
      reads bitmap.bytes
    {
      |bitmap.Free(Kernel)|
    }

    // mm_mem_kalloc
    method Kalloc() returns (frame: Option<Frame>)
      requires bitmap.Valid()
      modifies bitmap.bytes
      ensures frame.None? <==> old(Spare()) == 0
      ensures Spare() == if frame.Some? then old(Spare()) - 1 else 0
      ensures frame.Some? ==> KernelFrame(frame.value) && frame.value !in old(Taken())
      ensures Taken() == if frame.Some? then old(Taken()) + {frame.value} else old(Taken())
    {
      bitmap.ZonesPartition();
      var address := bitmap.Seek(Kernel);
      frame := if address == 0 then None else Some(address / PAGE_SIZE);
    }

    // mm_mem_alloc
    method Alloc() returns (frame: Option<Frame>)
      requires Valid()
      modifies bitmap.bytes
      ensures Valid() && Spare() == old(Spare())
      ensures frame.None? ==> forall f: Frame :: UserFrame(f) ==> f in old(Taken())
      ensures frame.Some? ==> UserFrame(frame.value) && frame.value !in old(Taken())
      ensures Taken() == if frame.Some? then old(Taken()) + {frame.value} else old(Taken())
    {
      bitmap.ZonesPartition();
      var address := bitmap.Seek(User);
      frame := if address == 0 then None else Some(address / PAGE_SIZE);
    }

    // mm_mem_free of a user frame
    method FreeUser(f: Frame)
      requires Valid() && UserFrame(f)
      modifies bitmap.bytes
      ensures Valid() && UserTaken() == old(UserTaken()) - {f}
      ensures KernelTaken() == old(KernelTaken()) && Spare() == old(Spare())
    {
      bitmap.MemFree(f * PAGE_SIZE);
      assert bitmap.Free(Kernel) == old(bitmap.Free(Kernel));
    }

    // mm_mem_free of a directory or table that is out of use
    method FreeTable(f: Frame)
      requires Valid() && KernelFrame(f) && Detached(frames, dirs, f) && f != kernelTable && f in KernelTaken()
      modifies bitmap.bytes
      ensures Valid() && UserTaken() == old(UserTaken())
      ensures KernelTaken() == old(KernelTaken()) - {f} && Spare() == old(Spare()) + 1
    {
      bitmap.MemFree(f * PAGE_SIZE);
      assert bitmap.Free(Kernel) == old(bitmap.Free(Kernel)) + {f};
    }

    // A write to a table that no directory reaches any more.
    method StoreInTable(t: Frame, i: nat, e: Entry)
      requires Valid() && KernelFrame(t) && Detached(frames, dirs, t) && i < ENTRIES
      modifies this`frames
      ensures Valid() && frames == old(frames)[t := old(frames)[t][i := e]]
      ensures SamePages(old(frames), frames, dirs)
      ensures Detached(frames, dirs, t)
    {
      StoreDetached(frames, dirs, Taken(), t, frames[t][i := e]);
      frames := frames[t := frames[t][i := e]];
    }

    // A directory is about to be torn down: from here on nobody runs on it.
    ghost method Forget(dir: Frame)
      requires Valid() && dir in dirs
      modifies this`dirs
      ensures Valid() && dirs == old(dirs) - {dir} && OwnTables(frames, frames, dirs, dir, 1, kernelTable)
      ensures StillTaken(frames, dir, 1, KernelTaken())
    {
      DropDirectory(frames, dirs, Taken(), dir);
      dirs := dirs - {dir};
    }

    // What mm_dir_free does with a present entry, by who else has the page.
    method ReleaseEntry(t: Frame, i: nat, e: Entry, held: bool, shared: bool)
      requires Valid() && KernelFrame(t) && Detached(frames, dirs, t) && i < ENTRIES && UserFrame(e.base)
      modifies this`frames, bitmap.bytes
      ensures Valid() && Detached(frames, dirs, t)
      ensures frames == if held then old(frames)[t := old(frames)[t][i := e.(cor := false, rw := true)]] else old(frames)
      ensures SamePages(old(frames), frames, dirs)
      ensures UserTaken() == old(UserTaken()) - if !held && !shared then {e.base} else {}
      ensures KernelTaken() == old(KernelTaken()) && Spare() == old(Spare())
    {
      if held {
        StoreInTable(t, i, e.(cor := false, rw := true));
      } else if !shared {
        FreeUser(e.base);
      }
    }

    predicate UserFrame(f: Frame) {
      USER_FRAME <= f < bitmap.Limit()
    }

    // A page table for slot i of the directory, made when it is missing.
    method EnsureTable(dir: Frame, i: nat) returns (ok: bool)
      requires Valid() && dir in dirs && 0 < i < ENTRIES
      modifies this`frames, bitmap.bytes
      ensures Valid()
      ensures ok <==> old(HasTable(frames, dir, i)) || old(Spare()) > 0
      ensures ok ==> HasTable(frames, dir, i)
      ensures Spare() == if old(HasTable(frames, dir, i)) || !ok then old(Spare()) else old(Spare()) - 1
      ensures UserTaken() == old(UserTaken())
      ensures forall d, j :: d in dirs ==> (HasTable(frames, d, j) <==> old(HasTable(frames, d, j)) || (ok && d == dir && j == i))
      ensures SamePages(old(frames), frames, dirs)
    {
      if frames[dir][i].p {
        return true;
      }
      var t := Kalloc();
      assert UserTaken() == old(UserTaken());
      if t.None? {
        return false;
      }
      AddTable(frames, dirs, old(Taken()), dir, i, t.value);
      frames := frames[dir := frames[dir][i := Mapped(t.value, true)]][t.value := Cleared()];
      ok := true;
    }

    method Store(v: VPage, e: Entry, dir: Frame)
      requires Valid() && dir in dirs && UserPage(v) && HasTable(frames, dir, v / ENTRIES)
      modifies this`frames
      ensures Valid()
      ensures forall d, j :: d in dirs ==> (HasTable(frames, d, j) <==> old(HasTable(frames, d, j)))
      ensures OnePage(old(frames), frames, dirs, dir, v, e)
    {
      StoreEntry(frames, dirs, Taken(), dir, v, e);
      var table := frames[dir][v / ENTRIES].base;
      frames := frames[table := frames[table][v % ENTRIES := e]];
    }

    /** mm_map_frame: page v of the directory, and no other page of any
        directory, now maps the frame. The source does not check that the
        kernel zone can supply the page table, so the caller must. */
    method MapFrame(frame: Frame, v: VPage, dir: Frame, us: bool)
      requires Valid() && dir in dirs && UserPage(v)
      requires HasTable(frames, dir, v / ENTRIES) || Spare() > 0
      modifies this`frames, bitmap.bytes
      ensures Valid()
      ensures OnePage(old(frames), frames, dirs, dir, v, Mapped(frame, us))
      ensures Spare() == if old(HasTable(frames, dir, v / ENTRIES)) then old(Spare()) else old(Spare()) - 1
      ensures UserTaken() == old(UserTaken())
      ensures forall d, j :: d in dirs ==>
                (HasTable(frames, d, j) <==> old(HasTable(frames, d, j)) || (d == dir && j == v / ENTRIES))
    {
      var ok := EnsureTable(dir, v / ENTRIES);
      Store(v, Mapped(frame, us), dir);
    }

    // mm_set_pt_entry
    method SetPtEntry(v: VPage, e: Entry, dir: Frame) returns (ok: bool)
      requires Valid() && dir in dirs && UserPage(v) && !e.p
      modifies this`frames, bitmap.bytes
      ensures Valid()
      ensures ok <==> old(HasTable(frames, dir, v / ENTRIES)) || old(Spare()) > 0
      ensures if ok then OnePage(old(frames), frames, dirs, dir, v, e) else SamePages(old(frames), frames, dirs)
      ensures Spare() == if old(HasTable(frames, dir, v / ENTRIES)) || !ok then old(Spare()) else old(Spare()) - 1
      ensures UserTaken() == old(UserTaken())
      ensures forall d, j :: d in dirs ==>
                (HasTable(frames, d, j) <==> old(HasTable(frames, d, j)) || (ok && d == dir && j == v / ENTRIES))
    {
      ok := EnsureTable(dir, v / ENTRIES);
      if ok {
        Store(v, e, dir);
      }
    }

    // mm_unmap_page
    method UnmapPage(v: VPage, dir: Frame)
      requires Valid() && dir in dirs && UserPage(v) && HasTable(frames, dir, v / ENTRIES)
      modifies this`frames
      ensures Valid()
      ensures OnePage(old(frames), frames, dirs, dir, v, ZERO)
      ensures forall d, j :: d in dirs ==> (HasTable(frames, d, j) <==> old(HasTable(frames, d, j)))
    {
      Store(v, ZERO, dir);
    }

    // mm_dir_new; the source does not check that the kernel zone can supply the frame.
    method DirNew() returns (dir: Frame)
      requires Valid() && Spare() > 0
      modifies this, bitmap.bytes
      ensures Valid() && dir !in old(dirs) && dirs == old(dirs) + {dir}
      ensures Spare() == old(Spare()) - 1 && UserTaken() == old(UserTaken())
      ensures forall w: VPage :: Lookup(frames, dir, w) == ZERO
      ensures SamePages(old(frames), frames, old(dirs))
      ensures forall d, i :: d in dirs ==> (HasTable(frames, d, i) <==> d in old(dirs) && old(HasTable(frames, d, i)))
    {
      var f := Kalloc();
      assert UserTaken() == old(UserTaken());
      dir := f.value;
      var pde := Mapped(kernelTable, false);
      AddDirectory(frames, dirs, old(Taken()), dir, pde);
      frames := frames[dir := Cleared()[0 := pde]];
      dirs := dirs + {dir};
    }

    // The body of copy_nonkernel_pages, for page v with entry e in the father.
    method CopyEntry(v: VPage, e: Entry, father: Frame, child: Frame)
      requires Valid() && father in dirs && child in dirs && father != child && UserPage(v)
      requires HasTable(frames, father, v / ENTRIES) && Lookup(frames, father, v) == e
      requires HasTable(frames, child, v / ENTRIES) || Spare() > 0
      modifies this`frames, bitmap.bytes
      ensures Valid() && UserTaken() == old(UserTaken())
      ensures EntryCopied(old(frames), frames, dirs, father, child, v)
      ensures Spare() >= if old(HasTable(frames, child, v / ENTRIES)) then old(Spare()) else old(Spare()) - 1
      ensures Spare() < old(Spare()) ==> HasTable(frames, child, v / ENTRIES)
      ensures forall d, j :: d in dirs && old(HasTable(frames, d, j)) ==> HasTable(frames, d, j)
      ensures forall d, j :: d in dirs && HasTable(frames, d, j) && !(d == child && j == v / ENTRIES) ==> old(HasTable(frames, d, j))
    {
      if e.p {
        if v == KSTACK {
          return;
        }
        MapFrame(e.base, v, child, e.us);
        MarkCopied(v, e, father, child);
      } else {
        var _ := SetPtEntry(v, e, child);
      }
    }

    // The marks on the two entries: shared, or both to be copied on write.
    method MarkCopied(v: VPage, e: Entry, father: Frame, child: Frame)
      requires Valid() && father in dirs && child in dirs && father != child && UserPage(v) && v != KSTACK && e.p
      requires HasTable(frames, father, v / ENTRIES) && HasTable(frames, child, v / ENTRIES) && Lookup(frames, father, v) == e
      modifies this`frames
      ensures Valid() && EntryCopied(old(frames), frames, dirs, father, child, v)
      ensures forall d, j :: d in dirs ==> (HasTable(frames, d, j) <==> old(HasTable(frames, d, j)))
    {
      if e.shared {
        Store(v, Mapped(e.base, e.us).(shared := true), child);
      } else {
        Store(v, Mapped(e.base, e.us).(cor := true, rw := false), child);
        Store(v, e.(cor := true, rw := false), father);
      }
    }

    // The inner loop of copy_nonkernel_pages, over the father's table of slot pde.
    method CopyTable(pde: nat, father: Frame, child: Frame, ghost m0: Memory)
      requires Valid() && father in dirs && child in dirs && father != child
      requires 0 < pde < ENTRIES && HasTable(frames, father, pde)
      requires HasTable(frames, child, pde) || Spare() > 0
      requires Copied(m0, frames, dirs, father, child, pde * ENTRIES)
      modifies this`frames, bitmap.bytes
      ensures Valid() && UserTaken() == old(UserTaken())
      ensures Copied(m0, frames, dirs, father, child, pde * ENTRIES + ENTRIES)
      ensures Spare() >= if old(HasTable(frames, child, pde)) then old(Spare()) else old(Spare()) - 1
      ensures forall d, j :: d in dirs && old(HasTable(frames, d, j)) ==> HasTable(frames, d, j)
      ensures forall d, j :: d in dirs && HasTable(frames, d, j) && !(d == child && j == pde) ==> old(HasTable(frames, d, j))
    {
      for pte := 0 to ENTRIES
        invariant Valid() && UserTaken() == old(UserTaken())
        invariant Copied(m0, frames, dirs, father, child, pde * ENTRIES + pte)
        invariant Spare() >= if old(HasTable(frames, child, pde)) then old(Spare()) else old(Spare()) - 1
        invariant Spare() < old(Spare()) ==> HasTable(frames, child, pde)
        invariant forall d, j :: d in dirs && old(HasTable(frames, d, j)) ==> HasTable(frames, d, j)
        invariant forall d, j :: d in dirs && HasTable(frames, d, j) && !(d == child && j == pde) ==> old(HasTable(frames, d, j))
      {
        var v := pde * ENTRIES + pte;
        assert v / ENTRIES == pde && v % ENTRIES == pte;
        ghost var m := frames;
        CopyEntry(v, frames[frames[father][pde].base][pte], father, child);
        CopiedStep(m0, m, frames, dirs, father, child, v);
      }
    }

    /** copy_nonkernel_pages: the child gets every page of the father but its
        kernel stack, the private ones by reference, read-only on both sides. */
    method CopyNonkernelPages(father: Frame, child: Frame)
      requires Valid() && father in dirs && child in dirs && father != child
      requires Spare() >= TableCount(frames, father, 1)
      requires (forall i :: !HasTable(frames, child, i)) && forall w: VPage :: Lookup(frames, child, w) == ZERO
      modifies this`frames, bitmap.bytes
      ensures Valid() && UserTaken() == old(UserTaken())
      ensures Copied(old(frames), frames, dirs, father, child, PAGES)
      ensures Spare() >= old(Spare()) - TableCount(old(frames), father, 1)
      ensures forall d, j :: d in dirs && old(HasTable(frames, d, j)) ==> HasTable(frames, d, j)
      ensures forall d, j :: d in dirs && d != child && HasTable(frames, d, j) ==> old(HasTable(frames, d, j))
    {
      ghost var m0 := frames;
      for pde := 1 to ENTRIES
        invariant Valid() && UserTaken() == old(UserTaken())
        invariant Spare() >= old(Spare()) - TableCount(m0, father, 1) + TableCount(m0, father, pde)
        invariant HandedOver(m0, frames, dirs, father, child, pde)
      {
        CopySlot(pde, father, child, m0);
      }
    }

    method CopySlot(pde: nat, father: Frame, child: Frame, ghost m0: Memory)
      requires Valid() && father in dirs && child in dirs && father != child && 0 < pde < ENTRIES
      requires HandedOver(m0, frames, dirs, father, child, pde) && Spare() >= TableCount(m0, father, pde)
      modifies this`frames, bitmap.bytes
      ensures Valid() && UserTaken() == old(UserTaken())
      ensures HandedOver(m0, frames, dirs, father, child, pde + 1)
      ensures Spare() >= old(Spare()) - TableCount(m0, father, pde) + TableCount(m0, father, pde + 1)
    {
      if frames[father][pde].p {
        CopyTable(pde, father, child, m0);
      } else {
        CopiedNothing(m0, frames, dirs, father, child, pde);
      }
    }
  }

  // Page v of the father has been handed to the child; nothing else changed.
  ghost predicate EntryCopied(m: Memory, m': Memory, dirs: set<Frame>, father: Frame, child: Frame, v: VPage) {
    && (forall d, w: VPage :: d in dirs && !(w == v && (d == father || d == child)) ==> Lookup(m', d, w) == Lookup(m, d, w))
    && Lookup(m', father, v) == (if v == KSTACK then Lookup(m, father, v) else ForkedParent(Lookup(m, father, v)))
    && (v != KSTACK ==> Lookup(m', child, v) == ForkedChild(Lookup(m, father, v)))
  }

  // The pages below n have been handed to the child, but for its kernel stack.
  ghost predicate Copied(m0: Memory, m: Memory, dirs: set<Frame>, father: Frame, child: Frame, n: nat) {
    && (forall d, w: VPage :: d in dirs && d != father && d != child ==> Lookup(m, d, w) == Lookup(m0, d, w))
    && (forall w: VPage :: Lookup(m, father, w) ==
          if w < n && w != KSTACK then ForkedParent(Lookup(m0, father, w)) else Lookup(m0, father, w))
    && (forall w: VPage :: w != KSTACK ==> Lookup(m, child, w) == if w < n then ForkedChild(Lookup(m0, father, w)) else ZERO)
  }

  // So they have for the tables before slot pde; the child has no other, and nobody else a new one.
  ghost predicate HandedOver(m0: Memory, m: Memory, dirs: set<Frame>, father: Frame, child: Frame, pde: nat) {
    var handedOver :=
      && Copied(m0, m, dirs, father, child, pde * ENTRIES)
      && (forall j :: pde <= j ==> !HasTable(m, child, j))
      && (forall d, j :: d in dirs && HasTable(m0, d, j) ==> HasTable(m, d, j))
      && (forall d, j :: d in dirs && d != child && HasTable(m, d, j) ==> HasTable(m0, d, j));
    handedOver
  }

  lemma CopiedStep(m0: Memory, m: Memory, m': Memory, dirs: set<Frame>, father: Frame, child: Frame, v: VPage)
    requires Copied(m0, m, dirs, father, child, v) && EntryCopied(m, m', dirs, father, child, v)
    requires father in dirs && child in dirs && father != child
    ensures Copied(m0, m', dirs, father, child, v + 1)
  {
  }

  lemma CopiedNothing(m0: Memory, m: Memory, dirs: set<Frame>, father: Frame, child: Frame, pde: nat)
    requires Copied(m0, m, dirs, father, child, pde * ENTRIES) && !HasTable(m0, father, pde) && 0 < pde
    ensures Copied(m0, m, dirs, father, child, pde * ENTRIES + ENTRIES)
  {
    forall w: VPage | pde * ENTRIES <= w < pde * ENTRIES + ENTRIES ensures Lookup(m0, father, w) == ZERO {
      assert w / ENTRIES == pde;
    }
  }

  // The number of tables a directory has in the slots from `from` on.
  ghost function TableCount(m: Memory, dir: Frame, from: nat): nat
    decreases ENTRIES - from
  {
    if from >= ENTRIES then 0 else (if HasTable(m, dir, from) then 1 else 0) + TableCount(m, dir, from + 1)
  }
}
