// loader_load (kernel/loader.c), as the idle process calls it: a new directory,
// the stacks and the pages of a program. Pages are filled through the caller's
// first page, which the idle process does not use.
module ProgramLoader {
  import opened Common
  import opened Paging
  import opened PageTables
  import opened MemoryManager
  import C = CopyOnWrite

  function ImageEntry(image: map<VPage, Frame>, v: VPage): Entry {
    if v in image then Mapped(image[v], v != KSTACK) else ZERO
  }

  // The new directory shows the image, the others what they showed.
  ghost predicate Built(m0: Memory, m: Memory, dirs: set<Frame>, dir: Frame, image: map<VPage, Frame>) {
    && SamePages(m0, m, dirs)
    && forall w: VPage :: Lookup(m, dir, w) == ImageEntry(image, w)
  }

  lemma BuiltNext(m0: Memory, m: Memory, m': Memory, dirs: set<Frame>, dir: Frame, image: map<VPage, Frame>, v: VPage, f: Frame)
    requires Built(m0, m, dirs, dir, image) && dir !in dirs
    requires OnePage(m, m', dirs + {dir}, dir, v, Mapped(f, v != KSTACK))
    ensures Built(m0, m', dirs, dir, image[v := f])
  {
    forall d, w: VPage | d in dirs ensures Lookup(m', d, w) == Lookup(m0, d, w) {
      assert d in dirs + {dir};
    }
    forall w: VPage ensures Lookup(m', dir, w) == ImageEntry(image[v := f], w) {
      assert dir in dirs + {dir} && Lookup(m, dir, w) == ImageEntry(image, w);
    }
  }

  lemma BuiltStays(m0: Memory, m: Memory, m': Memory, dirs: set<Frame>, dir: Frame, image: map<VPage, Frame>)
    requires Built(m0, m, dirs, dir, image) && SamePages(m, m', dirs + {dir})
    ensures Built(m0, m', dirs, dir, image)
  {
    forall d, w: VPage | d in dirs ensures Lookup(m', d, w) == Lookup(m0, d, w) {
      assert d in dirs + {dir};
    }
    forall w: VPage ensures Lookup(m', dir, w) == ImageEntry(image, w) {
      assert dir in dirs + {dir};
    }
  }

  // No table goes away.
  ghost predicate TablesStay(m: Memory, m': Memory, dirs: set<Frame>) {
    forall d, j :: d in dirs && HasTable(m, d, j) ==> HasTable(m', d, j)
  }

  // How many kernel frames the mapping of page v takes.
  ghost function Missing(m: Memory, dir: Frame, v: VPage): nat {
    if HasTable(m, dir, v / ENTRIES) then 0 else 1
  }

  // The directory has a table for the first page.
  predicate HasFirstTable(m: Memory, dir: Frame) {
    var has := HasTable(m, dir, FIRST_USER / ENTRIES);
    has
  }

  method UserFrame(m: Manager) returns (frame: Frame)
    requires m.tables.Valid()
    requires (forall f :: f in m.mem <==> m.tables.UserFrame(f)) && !(m.mem.Keys <= m.tables.UserTaken())
    modifies m.tables.bitmap.bytes
    ensures m.tables.Valid() && m.tables.Spare() == old(m.tables.Spare())
    ensures frame in m.mem && frame !in old(m.tables.UserTaken())
    ensures m.tables.UserTaken() == old(m.tables.UserTaken()) + {frame}
  {
    var got := m.tables.Alloc();
    frame := got.value;
  }

  // A frame for one page of the program.
  method MapPage(m: Manager, dir: Frame, v: VPage, ghost m0: Memory, ghost dirs: set<Frame>, ghost image: map<VPage, Frame>)
    returns (frame: Frame)
    requires m.tables.Valid() && m.tables.dirs == dirs + {dir} && dir !in dirs && PageTables.UserPage(v)
    requires Built(m0, m.tables.frames, dirs, dir, image) && m.tables.Spare() >= Missing(m.tables.frames, dir, v)
    requires (forall f :: f in m.mem <==> m.tables.UserFrame(f)) && !(m.mem.Keys <= m.tables.UserTaken())
    modifies m.tables`frames, m.tables.bitmap.bytes
    ensures m.tables.Valid() && Built(m0, m.tables.frames, dirs, dir, image[v := frame])
    ensures frame in m.mem && frame !in old(m.tables.UserTaken())
    ensures m.tables.UserTaken() == old(m.tables.UserTaken()) + {frame}
    ensures TablesStay(old(m.tables.frames), m.tables.frames, dirs + {dir}) && Missing(m.tables.frames, dir, v) == 0
    ensures forall d, j :: d in dirs && d != dir ==> (HasTable(m.tables.frames, d, j) <==> old(HasTable(m.tables.frames, d, j)))
    ensures m.tables.Spare() == old(m.tables.Spare() - Missing(m.tables.frames, dir, v))
  {
    frame := UserFrame(m);
    m.tables.MapFrame(frame, v, dir, v != KSTACK);
    BuiltNext(m0, old(m.tables.frames), m.tables.frames, dirs, dir, image, v, frame);
  }

  // Its contents, through the caller's first page.
  method FillPage(m: Manager, dir: Frame, frame: Frame, contents: Page, caller: Frame,
                  ghost m0: Memory, ghost dirs: set<Frame>, ghost image: map<VPage, Frame>)
    requires m.tables.Valid() && m.tables.dirs == dirs + {dir} && dir !in dirs && caller in dirs
    requires Built(m0, m.tables.frames, dirs, dir, image) && Lookup(m0, caller, FIRST_USER) == ZERO
    requires m.tables.Spare() >= Missing(m.tables.frames, caller, FIRST_USER)
    modifies m`mem, m.tables`frames, m.tables.bitmap.bytes
    ensures m.tables.Valid() && Built(m0, m.tables.frames, dirs, dir, image) && m.mem == old(m.mem)[frame := contents]
    ensures m.tables.UserTaken() == old(m.tables.UserTaken())
    ensures TablesStay(old(m.tables.frames), m.tables.frames, dirs + {dir}) && Missing(m.tables.frames, caller, FIRST_USER) == 0
    ensures m.tables.Spare() == old(m.tables.Spare() - Missing(m.tables.frames, caller, FIRST_USER))
  {
    assert Lookup(m.tables.frames, caller, FIRST_USER) == Lookup(m0, caller, FIRST_USER);
    m.FillThrough(FIRST_USER, frame, contents, caller);
    BuiltStays(m0, old(m.tables.frames), m.tables.frames, dirs, dir, image);
  }

  // The frames so far are fresh and the contents are what they should be.
  ghost predicate Imaged(s: C.State, image: map<VPage, Frame>, filled: map<Frame, Page>, mem: map<Frame, Page>, taken: set<Frame>) {
    C.FreshImage(s, image, filled) && mem == s.mem + filled && taken == s.used + image.Values
  }

  lemma ImagedNext(s: C.State, image: map<VPage, Frame>, filled: map<Frame, Page>, mem: map<Frame, Page>, taken: set<Frame>,
                   v: VPage, f: Frame)
    requires Imaged(s, image, filled, mem, taken) && v !in image && f in mem && f !in taken
    ensures Imaged(s, image[v := f], filled, mem, taken + {f}) && f !in filled
  {
    assert f !in image.Values && f in s.mem && f !in filled;
    forall u {:trigger C.FreshPage(s, image[v := f], u)} ensures C.FreshPage(s, image[v := f], u) {
      assert C.FreshPage(s, image, u);
    }
    forall u, w {:trigger C.OwnFrame(image[v := f], u, w)} ensures C.OwnFrame(image[v := f], u, w) {
      assert C.OwnFrame(image, u, w);
    }
    assert image[v := f].Values == image.Values + {f} by {
      assert image[v := f][v] == f;
      forall g | g in image.Values ensures g in image[v := f].Values {
        var w :| w in image && image[w] == g;
        assert image[v := f][w] == g;
      }
    }
  }

  lemma FilledNext(s: C.State, image: map<VPage, Frame>, filled: map<Frame, Page>, mem: map<Frame, Page>, taken: set<Frame>,
                   f: Frame, contents: Page)
    requires Imaged(s, image, filled, mem, taken) && f in image.Values
    ensures Imaged(s, image, filled[f := contents], mem[f := contents], taken)
  {
  }

  // Page i of the program is where it belongs, with its contents.
  ghost predicate DataAt(image: map<VPage, Frame>, filled: map<Frame, Page>, data: seq<Page>, i: nat) {
    i < |data| ==> FIRST_USER + i in image && image[FIRST_USER + i] in filled && filled[image[FIRST_USER + i]] == data[i]
  }

  // The tables of the first i pages of a program.
  function TableCountOf(i: nat): nat {
    (i + ENTRIES - 1) / ENTRIES
  }

  lemma NextTable(i: nat)
    ensures (FIRST_USER + i) / ENTRIES == TableCountOf(i + 1)
    ensures TableCountOf(i + 1) == TableCountOf(i) + if i % ENTRIES == 0 then 1 else 0
    ensures i % ENTRIES != 0 ==> TableCountOf(i) >= 1
  {
  }

  lemma MoreTables(i: nat, n: nat)
    requires i <= n
    ensures TableCountOf(i) <= TableCountOf(n)
  {
  }

  // What is known between two pages of the program.
  ghost predicate Loading(m: Manager, dir: Frame, caller: Frame, m0: Memory, dirs: set<Frame>, s: C.State,
                          image: map<VPage, Frame>, filled: map<Frame, Page>, more: nat)
    reads m, m.tables, m.tables.bitmap.bytes
  {
    var loading :=
      && m.tables.Valid() && m.tables.dirs == dirs + {dir} && dir !in dirs && caller in dirs
      && Built(m0, m.tables.frames, dirs, dir, image) && Lookup(m0, caller, FIRST_USER) == ZERO
      && (forall f :: f in m.mem <==> m.tables.UserFrame(f))
      && Imaged(s, image, filled, m.mem, m.tables.UserTaken())
      && |m.mem.Keys - m.tables.UserTaken()| >= more;
    loading
  }

  lemma OneFewer(a: set<Frame>, b: set<Frame>, f: Frame, more: nat)
    requires |a - b| >= more + 1 && f in a && f !in b
    ensures |a - (b + {f})| >= more && !(a <= b)
  {
    assert a - b == (a - (b + {f})) + {f};
  }

  // The kernel frames that the loading of page v takes.
  ghost predicate Spent(m: Memory, spare: nat, m': Memory, spare': nat, dirs: set<Frame>, dir: Frame, v: VPage, caller: Frame, full: bool) {
    && TablesStay(m, m', dirs) && Missing(m', dir, v) == 0 && (full ==> Missing(m', caller, FIRST_USER) == 0)
    && spare' == spare - Missing(m, dir, v) - if full then Missing(m, caller, FIRST_USER) else 0
  }

  // Page v can be loaded: it is new, and there is room for the tables it takes.
  ghost predicate Fits(m: Memory, spare: nat, dir: Frame, v: VPage, caller: Frame, image: map<VPage, Frame>) {
    var fits := PageTables.UserPage(v) && v !in image && spare >= Missing(m, dir, v) + Missing(m, caller, FIRST_USER);
    fits
  }

  // One page of the program.
  method LoadPage(m: Manager, dir: Frame, v: VPage, contents: Option<Page>, caller: Frame,
                  ghost m0: Memory, ghost dirs: set<Frame>, ghost s: C.State,
                  ghost image: map<VPage, Frame>, ghost filled: map<Frame, Page>, ghost more: nat)
    returns (ghost frame: Frame, ghost image': map<VPage, Frame>, ghost filled': map<Frame, Page>)
    requires Loading(m, dir, caller, m0, dirs, s, image, filled, more + 1)
    requires Fits(m.tables.frames, m.tables.Spare(), dir, v, caller, image)
    modifies m`mem, m.tables`frames, m.tables.bitmap.bytes
    ensures Loading(m, dir, caller, m0, dirs, s, image', filled', more) && frame !in filled && frame !in image.Values
    ensures image' == image[v := frame] && filled' == if contents.Some? then filled[frame := contents.value] else filled
    ensures Spent(old(m.tables.frames), old(m.tables.Spare()), m.tables.frames, m.tables.Spare(), dirs + {dir}, dir, v, caller,
                  contents.Some?)
  {
    assert m.mem.Keys - m.tables.UserTaken() != {};
    ghost var taken := m.tables.UserTaken();
    var f := MapPage(m, dir, v, m0, dirs, image);
    frame, image', filled' := f, image[v := f], filled;
    ImagedNext(s, image, filled, m.mem, taken, v, f);
    OneFewer(m.mem.Keys, taken, f, more);
    if contents.Some? {
      FilledNext(s, image[v := f], filled, m.mem, m.tables.UserTaken(), f, contents.value);
      FillPage(m, dir, f, contents.value, caller, m0, dirs, image[v := f]);
      filled' := filled[f := contents.value];
    }
  }

  // The pages of a program of which i are loaded.
  predicate InProgram(v: VPage, i: nat) {
    FIRST_USER <= v < FIRST_USER + i || v == KSTACK || v == USTACK
  }

  // They are in the image, with their contents.
  ghost predicate Loaded(image: map<VPage, Frame>, filled: map<Frame, Page>, stack: Page, data: seq<Page>, i: nat) {
    var loaded :=
      && (forall v :: v in image <==> InProgram(v, i))
      && image[KSTACK] in filled && filled[image[KSTACK]] == stack
      && forall j: nat {:trigger DataAt(image, filled, data, j)} :: j < i ==> DataAt(image, filled, data, j);
    loaded
  }

  lemma LoadedNext(image: map<VPage, Frame>, filled: map<Frame, Page>, stack: Page, data: seq<Page>, i: nat, f: Frame)
    requires Loaded(image, filled, stack, data, i) && i < |data| && FIRST_USER + |data| <= USTACK && f !in filled
    ensures Loaded(image[FIRST_USER + i := f], filled[f := data[i]], stack, data, i + 1)
  {
    var image', filled' := image[FIRST_USER + i := f], filled[f := data[i]];
    forall j: nat | j < i + 1 ensures DataAt(image', filled', data, j) {
      assert j < i ==> DataAt(image, filled, data, j);
    }
  }

  // The tables for the first i pages are there.
  ghost predicate HasTables(m: Memory, dir: Frame, i: nat) {
    forall j :: 1 <= j <= TableCountOf(i) ==> HasTable(m, dir, j)
  }

  lemma PageNeeds(m: Memory, dir: Frame, i: nat, n: nat)
    requires HasTables(m, dir, i) && i < n
    ensures Missing(m, dir, FIRST_USER + i) <= TableCountOf(i + 1) - TableCountOf(i)
    ensures TableCountOf(i + 1) <= TableCountOf(n)
  {
    NextTable(i);
    MoreTables(i + 1, n);
  }

  lemma HasTablesNext(m: Memory, m': Memory, dirs: set<Frame>, dir: Frame, i: nat)
    requires HasTables(m, dir, i) && TablesStay(m, m', dirs) && dir in dirs
    requires Missing(m', dir, FIRST_USER + i) == 0
    ensures HasTables(m', dir, i + 1)
  {
    NextTable(i);
  }

  // The first i pages are loaded, and there is room for the others.
  ghost predicate DataLoaded(m: Memory, spare: nat, dir: Frame, stack: Page, data: seq<Page>, caller: Frame,
                             image: map<VPage, Frame>, filled: map<Frame, Page>, i: nat)
  {
    var loaded :=
      && Loaded(image, filled, stack, data, i) && HasTables(m, dir, i)
      && Missing(m, caller, FIRST_USER) == 0 && spare >= TableCountOf(|data|) - TableCountOf(i);
    loaded
  }

  lemma DataNeeds(m: Memory, spare: nat, dir: Frame, stack: Page, data: seq<Page>, caller: Frame,
                  image: map<VPage, Frame>, filled: map<Frame, Page>, i: nat)
    requires DataLoaded(m, spare, dir, stack, data, caller, image, filled, i) && i < |data| && FIRST_USER + |data| <= USTACK
    ensures Fits(m, spare, dir, FIRST_USER + i, caller, image)
  {
    PageNeeds(m, dir, i, |data|);
  }

  lemma DataLoadedNext(m: Memory, m': Memory, dirs: set<Frame>, spare: nat, spare': nat, dir: Frame, stack: Page, data: seq<Page>,
                       caller: Frame, image: map<VPage, Frame>, filled: map<Frame, Page>, i: nat, f: Frame)
    requires DataLoaded(m, spare, dir, stack, data, caller, image, filled, i) && i < |data| && FIRST_USER + |data| <= USTACK
    requires Spent(m, spare, m', spare', dirs, dir, FIRST_USER + i, caller, true) && dir in dirs && f !in filled
    ensures DataLoaded(m', spare', dir, stack, data, caller, image[FIRST_USER + i := f], filled[f := data[i]], i + 1)
  {
    PageNeeds(m, dir, i, |data|);
    LoadedNext(image, filled, stack, data, i, f);
    HasTablesNext(m, m', dirs, dir, i);
  }

  lemma AllLoaded(m: Memory, spare: nat, dir: Frame, stack: Page, data: seq<Page>, caller: Frame,
                  image: map<VPage, Frame>, filled: map<Frame, Page>, i: nat, more: nat)
    requires DataLoaded(m, spare, dir, stack, data, caller, image, filled, i) && !(i < |data|) && |data| == i + more
    ensures Loaded(image, filled, stack, data, |data|) && HasFirstTable(m, caller)
  {
  }

  // One round of copy_data_from.
  method NextData(m: Manager, dir: Frame, stack: Page, data: seq<Page>, i: nat, caller: Frame,
                  ghost m0: Memory, ghost dirs: set<Frame>, ghost s: C.State,
                  ghost image: map<VPage, Frame>, ghost filled: map<Frame, Page>, ghost more: nat)
    returns (ghost image': map<VPage, Frame>, ghost filled': map<Frame, Page>)
    requires i < |data| && FIRST_USER + |data| <= USTACK && Loading(m, dir, caller, m0, dirs, s, image, filled, more + 1)
    requires DataLoaded(m.tables.frames, m.tables.Spare(), dir, stack, data, caller, image, filled, i)
    modifies m`mem, m.tables`frames, m.tables.bitmap.bytes
    ensures Loading(m, dir, caller, m0, dirs, s, image', filled', more)
    ensures DataLoaded(m.tables.frames, m.tables.Spare(), dir, stack, data, caller, image', filled', i + 1)
  {
    ghost var before, spare, f := m.tables.frames, m.tables.Spare(), 0;
    DataNeeds(before, spare, dir, stack, data, caller, image, filled, i);
    f, image', filled' := LoadPage(m, dir, FIRST_USER + i, Some(data[i]), caller, m0, dirs, s, image, filled, more);
    DataLoadedNext(before, m.tables.frames, dirs + {dir}, spare, m.tables.Spare(), dir, stack, data, caller, image, filled, i, f);
  }

  // copy_data_from: i is how many pages it has loaded, which is all.
  method CopyData(m: Manager, dir: Frame, stack: Page, data: seq<Page>, caller: Frame,
                  ghost m0: Memory, ghost dirs: set<Frame>, ghost s: C.State,
                  ghost image0: map<VPage, Frame>, ghost filled0: map<Frame, Page>)
    returns (i: nat, ghost image: map<VPage, Frame>, ghost filled: map<Frame, Page>, ghost more: nat)
    requires FIRST_USER + |data| <= USTACK && Loading(m, dir, caller, m0, dirs, s, image0, filled0, |data|)
    requires DataLoaded(m.tables.frames, m.tables.Spare(), dir, stack, data, caller, image0, filled0, 0)
    modifies m`mem, m.tables`frames, m.tables.bitmap.bytes
    ensures Loading(m, dir, caller, m0, dirs, s, image, filled, more) && !(i < |data|) && |data| == i + more
    ensures DataLoaded(m.tables.frames, m.tables.Spare(), dir, stack, data, caller, image, filled, i)
  {
    image, filled := image0, filled0;
    i := 0;
    more := |data|;
    while i < |data|
      invariant |data| == i + more && Loading(m, dir, caller, m0, dirs, s, image, filled, more)
      invariant DataLoaded(m.tables.frames, m.tables.Spare(), dir, stack, data, caller, image, filled, i)
    {
      image, filled := NextData(m, dir, stack, data, i, caller, m0, dirs, s, image, filled, more - 1);
      i, more := i + 1, more - 1;
    }
  }

  // With it, all pages are in their places.
  method LoadData(m: Manager, dir: Frame, stack: Page, data: seq<Page>, caller: Frame,
                  ghost m0: Memory, ghost dirs: set<Frame>, ghost s: C.State,
                  ghost image0: map<VPage, Frame>, ghost filled0: map<Frame, Page>)
    returns (ghost image: map<VPage, Frame>, ghost filled: map<Frame, Page>, ghost more: nat)
    requires FIRST_USER + |data| <= USTACK && Loading(m, dir, caller, m0, dirs, s, image0, filled0, |data|)
    requires DataLoaded(m.tables.frames, m.tables.Spare(), dir, stack, data, caller, image0, filled0, 0)
    modifies m`mem, m.tables`frames, m.tables.bitmap.bytes
    ensures Loading(m, dir, caller, m0, dirs, s, image, filled, more)
    ensures Loaded(image, filled, stack, data, |data|) && HasFirstTable(m.tables.frames, caller)
  {
    var i;
    i, image, filled, more := CopyData(m, dir, stack, data, caller, m0, dirs, s, image0, filled0);
    AllLoaded(m.tables.frames, m.tables.Spare(), dir, stack, data, caller, image, filled, i, more);
  }

  lemma KernelStackFits(m: Memory, spare: nat, dir: Frame, caller: Frame)
    requires spare >= 1 + Missing(m, caller, FIRST_USER)
    ensures Fits(m, spare, dir, KSTACK, caller, map[])
  {
  }

  // With a kernel stack there is a table for the user stack.
  lemma UserStackFits(m: Memory, spare: nat, m': Memory, spare': nat, dirs: set<Frame>, dir: Frame, caller: Frame, k: Frame)
    requires Spent(m, spare, m', spare', dirs, dir, KSTACK, caller, true)
    ensures Fits(m', spare', dir, USTACK, caller, map[KSTACK := k])
    ensures Missing(m', dir, USTACK) == 0 && Missing(m', caller, FIRST_USER) == 0
    ensures spare' >= spare - 1 - Missing(m, caller, FIRST_USER)
  {
  }

  lemma StacksLoaded(m: Memory, spare: nat, m': Memory, spare': nat, dirs: set<Frame>, dir: Frame, stack: Page, data: seq<Page>,
                     caller: Frame, k: Frame, u: Frame)
    requires Spent(m, spare, m', spare', dirs, dir, USTACK, caller, false) && Missing(m, dir, USTACK) == 0
    requires Missing(m, caller, FIRST_USER) == 0 && caller in dirs && k != u && spare >= TableCountOf(|data|)
    ensures DataLoaded(m', spare', dir, stack, data, caller, map[KSTACK := k][USTACK := u], map[k := stack], 0)
  {
  }

  lemma NothingBuilt(s: C.State, m: Memory, m': Memory, dirs: set<Frame>, dir: Frame, caller: Frame)
    requires SamePages(m, m', dirs) && forall w: VPage :: Lookup(m', dir, w) == ZERO
    ensures Built(m, m', dirs, dir, map[]) && Imaged(s, map[], map[], s.mem, s.used)
  {
    var none: map<VPage, Frame> := map[];
    assert s.mem + map[] == s.mem && s.used + none.Values == s.used;
  }

  // mm_dir_new
  method NewDirectory(m: Manager, caller: Frame, ghost m0: Memory, ghost dirs: set<Frame>, ghost s: C.State, ghost more: nat)
    returns (dir: Frame)
    requires m.tables.Valid() && m.tables.dirs == dirs && m.tables.frames == m0 && caller in dirs
    requires Lookup(m0, caller, FIRST_USER) == ZERO && (forall f :: f in m.mem <==> m.tables.UserFrame(f))
    requires m.mem == s.mem && m.tables.UserTaken() == s.used && |m.mem.Keys - s.used| >= more
    requires m.tables.Spare() > 0
    modifies m.tables, m.tables.bitmap.bytes
    ensures Loading(m, dir, caller, m0, dirs, s, map[], map[], more) && m.tables.Spare() == old(m.tables.Spare()) - 1
    ensures Missing(m.tables.frames, caller, FIRST_USER) == Missing(m0, caller, FIRST_USER)
  {
    dir := m.tables.DirNew();
    NothingBuilt(s, m0, m.tables.frames, dirs, dir, caller);
  }

  // mm_dir_new and create_stacks_for, for a user program
  method LoadStacks(m: Manager, stack: Page, ghost data: seq<Page>, caller: Frame,
                    ghost m0: Memory, ghost dirs: set<Frame>, ghost s: C.State, ghost more: nat)
    returns (dir: Frame, ghost image: map<VPage, Frame>, ghost filled: map<Frame, Page>)
    requires m.tables.Valid() && m.tables.dirs == dirs && m.tables.frames == m0 && caller in dirs
    requires Lookup(m0, caller, FIRST_USER) == ZERO && (forall f :: f in m.mem <==> m.tables.UserFrame(f))
    requires m.mem == s.mem && m.tables.UserTaken() == s.used && |m.mem.Keys - s.used| >= more + 2
    requires m.tables.Spare() >= 2 + Missing(m0, caller, FIRST_USER) + TableCountOf(|data|)
    modifies m`mem, m.tables, m.tables.bitmap.bytes
    ensures Loading(m, dir, caller, m0, dirs, s, image, filled, more)
    ensures DataLoaded(m.tables.frames, m.tables.Spare(), dir, stack, data, caller, image, filled, 0)
  {
    dir := NewDirectory(m, caller, m0, dirs, s, more + 1 + 1);
    ghost var k: Frame, m1, spare1 := 0, m.tables.frames, m.tables.Spare();
    KernelStackFits(m1, spare1, dir, caller);
    k, image, filled := LoadPage(m, dir, KSTACK, Some(stack), caller, m0, dirs, s, map[], map[], more + 1);
    ghost var u: Frame, m2, spare2 := 0, m.tables.frames, m.tables.Spare();
    UserStackFits(m1, spare1, m2, spare2, dirs + {dir}, dir, caller, k);
    u, image, filled := LoadPage(m, dir, USTACK, None, caller, m0, dirs, s, image, filled, more);
    StacksLoaded(m2, spare2, m.tables.frames, m.tables.Spare(), dirs + {dir}, dir, stack, data, caller, k, u);
  }

  ghost predicate OnlyUserPages(image: map<VPage, Frame>) {
    var only := TMP_PAGE !in image && forall v :: v in image ==> PageTables.UserPage(v);
    only
  }

  lemma ProgramPages(image: map<VPage, Frame>, filled: map<Frame, Page>, stack: Page, data: seq<Page>)
    requires Loaded(image, filled, stack, data, |data|) && FIRST_USER + |data| <= USTACK
    ensures OnlyUserPages(image)
  {
  }

  // With the PCB filled in, that is the flat machine's load.
  lemma LoadShown(ps: seq<Pcb>, m: Memory, m': Memory, dirs: set<Frame>, dir: Frame, s: C.State, c: nat,
                  image: map<VPage, Frame>, filled: map<Frame, Page>, next: VPage)
    requires AllShown(ps, m, dirs, s) && c < |ps| && !Live(ps, c) && c !in s.space && dir !in dirs
    requires Built(m, m', dirs, dir, image) && OnlyUserPages(image)
    ensures AllShown(ps[c := Pcb(true, dir, next)], m', dirs + {dir}, C.LoadOf(s, c, image, filled, next))
  {
    var ps', s' := ps[c := Pcb(true, dir, next)], C.LoadOf(s, c, image, filled, next);
    C.LoadEntries(s, c, image, filled, next);
    forall q: nat ensures Shows(ps', m', dirs + {dir}, s', q) {
      assert Shows(ps, m, dirs, s, q);
      forall v ensures s'.At(q, v) == EntryOf(ps', m', q, v) {
        assert s.At(q, v) == EntryOf(ps, m, q, v);
      }
    }
    forall q: nat, r: nat ensures OwnDirectory(ps', q, r) {
      assert OwnDirectory(ps, q, r) && Shows(ps, m, dirs, s, q) && Shows(ps, m, dirs, s, r);
    }
  }

  lemma LoadIsOrderly(s: C.State, c: nat, image: map<VPage, Frame>, filled: map<Frame, Page>, next: VPage)
    requires Orderly(s) && c !in s.space && C.FreshImage(s, image, filled) && OnlyUserPages(image)
    ensures Orderly(C.LoadOf(s, c, image, filled, next))
  {
    C.LoadKeepsPlaced(s, c, image, filled, next);
    C.LoadEntries(s, c, image, filled, next);
    forall p ensures C.LoadOf(s, c, image, filled, next).At(p, TMP_PAGE) == ZERO {
      assert s.At(p, TMP_PAGE) == ZERO;
    }
  }

  /** What loader_load relies on for a program of n pages: frames for the
      stacks and the data, and in the kernel zone for the directory, its tables
      and the caller's table. The caller's first page is not in use. */
  ghost predicate CanLoad(m: Manager, n: nat)
    reads m, m.tables, m.tables.bitmap.bytes
  {
    var can :=
      && m.Valid() && m.cur in m.flat.space && m.flat.At(m.cur, FIRST_USER) == ZERO
      && FIRST_USER + n <= USTACK && |m.mem.Keys - m.flat.used| >= n + 2
      && m.tables.Spare() >= 2 + Missing(m.tables.frames, m.processes[m.cur].cr3, FIRST_USER) + TableCountOf(n);
    can
  }

  // The pages of a new program, in a directory of its own.
  method LoadPages(m: Manager, stack: Page, data: seq<Page>)
    returns (dir: Frame, ghost image: map<VPage, Frame>, ghost filled: map<Frame, Page>, ghost more: nat)
    requires CanLoad(m, |data|)
    modifies m`mem, m.tables, m.tables.bitmap.bytes
    ensures Loading(m, dir, old(m.processes[m.cur].cr3), old(m.tables.frames), old(m.tables.dirs), old(m.flat), image, filled, more)
    ensures Loaded(image, filled, stack, data, |data|) && C.FreshImage(m.flat, image, filled)
    ensures HasFirstTable(m.tables.frames, old(m.processes[m.cur].cr3))
  {
    ghost var m0, dirs := m.tables.frames, m.tables.dirs;
    m.Current();
    assert m.flat.At(m.cur, FIRST_USER) == EntryOf(m.processes, m0, m.cur, FIRST_USER);
    var caller := m.processes[m.cur].cr3;
    dir, image, filled := LoadStacks(m, stack, data, caller, m0, dirs, m.flat, |data|);
    image, filled, more := LoadData(m, dir, stack, data, caller, m0, dirs, m.flat, image, filled);
  }

  // The PCB of the child is free, and the others are as the flat state says.
  ghost predicate Awaited(ps: seq<Pcb>, m: Memory, dirs: set<Frame>, s: C.State, cur: nat, child: nat) {
    var awaited := AllShown(ps, m, dirs, s) && Orderly(s) && cur < |ps| && child < |ps| && !Live(ps, child) && child !in s.space;
    awaited
  }

  // No other PCB has changed.
  predicate OnlyChild(ps: seq<Pcb>, ps': seq<Pcb>, child: nat) {
    var only := child < |ps| == |ps'| && ps' == ps[child := ps'[child]];
    only
  }

  // Everything is there but the PCB.
  ghost predicate Ready(m: Manager, ps: seq<Pcb>, t: C.State)
    reads m, m.tables, m.tables.bitmap.bytes
  {
    var ready := m.Fits(ps, t) && Orderly(t);
    ready
  }

  method Adopt(m: Manager, child: nat, pcb: Pcb, ghost t: C.State)
    requires child < |m.processes| && Ready(m, m.processes[child := pcb], t)
    modifies m`processes, m`flat
    ensures m.Valid() && m.flat == t && m.processes == old(m.processes)[child := pcb]
  {
    m.SetPcb(child, pcb, t);
  }

  // The PCB of the new process is filled in.
  lemma Adopted(m: Manager, child: nat, dir: Frame, next: VPage, caller: Frame, m0: Memory, dirs: set<Frame>,
                s: C.State, image: map<VPage, Frame>, filled: map<Frame, Page>, more: nat)
    requires Loading(m, dir, caller, m0, dirs, s, image, filled, more) && OnlyUserPages(image)
    requires Awaited(m.processes, m0, dirs, s, m.cur, child)
    ensures child < |m.processes|
    ensures Ready(m, m.processes[child := Pcb(true, dir, next)], C.LoadOf(s, child, image, filled, next))
  {
    LoadShown(m.processes, m0, m.tables.frames, dirs, dir, s, child, image, filled, next);
    LoadIsOrderly(s, child, image, filled, next);
    ImagedLoad(s, child, image, filled, next, m.mem, m.tables.UserTaken());
  }

  lemma ImagedLoad(s: C.State, c: nat, image: map<VPage, Frame>, filled: map<Frame, Page>, next: VPage,
                   mem: map<Frame, Page>, taken: set<Frame>)
    requires Imaged(s, image, filled, mem, taken)
    ensures C.LoadOf(s, c, image, filled, next).mem == mem && C.LoadOf(s, c, image, filled, next).used == taken
  {
  }

  // loader_load, once the pid is known and until the PCB is filled in
  method BuildProcess(m: Manager, child: nat, stack: Page, data: seq<Page>)
    returns (dir: Frame, ghost image: map<VPage, Frame>, ghost filled: map<Frame, Page>)
    requires CanLoad(m, |data|) && child < |m.processes| && !m.processes[child].live
    modifies m`mem, m.tables, m.tables.bitmap.bytes
    ensures Ready(m, m.processes[child := Pcb(true, dir, FIRST_USER + |data|)],
                  C.LoadOf(m.flat, child, image, filled, FIRST_USER + |data|))
    ensures C.FreshImage(m.flat, image, filled) && Loaded(image, filled, stack, data, |data|)
    ensures HasFirstTable(m.tables.frames, m.processes[m.cur].cr3)
  {
    ghost var caller, m0, dirs, s, more := m.processes[m.cur].cr3, m.tables.frames, m.tables.dirs, m.flat, 0;
    assert Shows(m.processes, m0, dirs, s, child);
    assert Awaited(m.processes, m0, dirs, s, m.cur, child);
    dir, image, filled, more := LoadPages(m, stack, data);
    ProgramPages(image, filled, stack, data);
    Adopted(m, child, dir, FIRST_USER + |data|, caller, m0, dirs, s, image, filled, more);
  }

  // loader_load, once the pid is known
  method LoadProcess(m: Manager, child: nat, stack: Page, data: seq<Page>)
    returns (ghost image: map<VPage, Frame>, ghost filled: map<Frame, Page>)
    requires CanLoad(m, |data|) && child < |m.processes| && !m.processes[child].live
    modifies m`processes, m`mem, m`flat, m.tables, m.tables.bitmap.bytes
    ensures m.Valid() && C.FreshImage(old(m.flat), image, filled) && Loaded(image, filled, stack, data, |data|)
    ensures m.flat == C.LoadOf(old(m.flat), child, image, filled, FIRST_USER + |data|)
    ensures child < |m.processes| && m.processes == old(m.processes)[child := m.processes[child]]
    ensures HasFirstTable(m.tables.frames, old(m.processes[m.cur].cr3))
  {
    var dir;
    dir, image, filled := BuildProcess(m, child, stack, data);
    Adopt(m, child, Pcb(true, dir, FIRST_USER + |data|), C.LoadOf(m.flat, child, image, filled, FIRST_USER + |data|));
  }

  // loader_load, which relies on a free PCB as well, by a process that does not use its first page
  method Load(m: Manager, stack: Page, data: seq<Page>)
    returns (child: nat, ghost image: map<VPage, Frame>, ghost filled: map<Frame, Page>)
    requires CanLoad(m, |data|) && exists p: nat :: p < |m.processes| && !m.processes[p].live
    modifies m`processes, m`mem, m`flat, m.tables, m.tables.bitmap.bytes
    ensures m.Valid() && child !in old(m.flat).space && C.FreshImage(old(m.flat), image, filled)
    ensures m.flat == C.LoadOf(old(m.flat), child, image, filled, FIRST_USER + |data|)
    ensures Loaded(image, filled, stack, data, |data|)
  {
    child := m.GetNewPid();
    assert Shows(m.processes, m.tables.frames, m.tables.dirs, m.flat, child);
    image, filled := LoadProcess(m, child, stack, data);
  }

  // --- a load by a process that uses its first page ---------------------------------

  // What the load relies on then.
  ghost predicate CanLoadBy(m: Manager, n: nat)
    reads m, m.tables, m.tables.bitmap.bytes
  {
    var can :=
      && m.Valid() && m.cur in m.flat.space && m.flat.At(m.cur, FIRST_USER).p
      && FIRST_USER + n <= USTACK && |m.mem.Keys - m.flat.used| >= n + 2
      && m.tables.Spare() >= 2 + TableCountOf(n);
    can
  }

  // create_temp_mapping_on: the frame is remembered, and the page gives way.
  method HideFirstPage(m: Manager) returns (frame: Frame)
    requires m.Valid() && m.cur in m.flat.space && m.flat.At(m.cur, FIRST_USER).p
    modifies m`flat, m.tables`frames
    ensures m.Valid() && frame == old(m.flat).At(m.cur, FIRST_USER).base
    ensures m.flat == old(m.flat).Put(m.cur, FIRST_USER, ZERO) && HasFirstTable(m.tables.frames, m.processes[m.cur].cr3)
  {
    m.Current();
    assert m.flat.At(m.cur, FIRST_USER) == EntryOf(m.processes, m.tables.frames, m.cur, FIRST_USER);
    frame := m.tables.PtEntryFor(FIRST_USER, m.processes[m.cur].cr3).value.base;
    PutIsOrderly(m.flat, m.cur, ZERO);
    m.Reflag(FIRST_USER, ZERO);
    assert m.HasTableFor(FIRST_USER);
  }

  // The first page of p in state s is in frame f, and hidden in state t.
  ghost predicate Hiding(s: C.State, p: nat, f: Frame, t: C.State) {
    var hiding :=
      && Orderly(s) && p in s.space && s.At(p, FIRST_USER).p && f == s.At(p, FIRST_USER).base
      && t == s.Put(p, FIRST_USER, ZERO);
    hiding
  }

  // What is left to do while the page is hidden.
  method LoadHidden(m: Manager, child: nat, stack: Page, data: seq<Page>, frame: Frame, ghost s: C.State)
    returns (ghost image: map<VPage, Frame>, ghost filled: map<Frame, Page>)
    requires CanLoad(m, |data|) && child < |m.processes| && !m.processes[child].live && child !in s.space
    requires Hiding(s, m.cur, frame, m.flat)
    modifies m`processes, m`mem, m`flat, m.tables, m.tables.bitmap.bytes
    ensures m.Valid() && C.FreshImage(s, image, filled) && Loaded(image, filled, stack, data, |data|)
    ensures Hidden(m.flat, m.cur, frame, C.RestoreOf(C.LoadOf(s, child, image, filled, FIRST_USER + |data|), m.cur))
    ensures child < |m.processes| && m.processes == old(m.processes)[child := m.processes[child]]
    ensures HasFirstTable(m.tables.frames, old(m.processes[m.cur].cr3))
  {
    image, filled := LoadProcess(m, child, stack, data);
    HiddenLoad(s, m.cur, child, image, filled, FIRST_USER + |data|);
  }

  // With its first page back in frame f, the state of p is t.
  ghost predicate Hidden(s: C.State, p: nat, f: Frame, t: C.State) {
    var hidden :=
      && p in s.space && s.At(p, FIRST_USER) == ZERO && f in s.used
      && (forall q, w :: s.At(q, w).p && s.At(q, w).base == f ==> w == FIRST_USER)
      && s.Put(p, FIRST_USER, Mapped(f, true)) == t;
    hidden
  }

  lemma PutIsOrderly(s: C.State, p: nat, e: Entry)
    requires Orderly(s) && p in s.space && (e == ZERO || (e == Mapped(e.base, true) && s.At(p, FIRST_USER) == ZERO))
    requires e.p ==> e.base in s.used && forall q, w :: s.At(q, w).p && s.At(q, w).base == e.base ==> w == FIRST_USER
    ensures Orderly(s.Put(p, FIRST_USER, e))
  {
    var s' := s.Put(p, FIRST_USER, e);
    forall q, u, r, w ensures C.SamePlace(s'.At(q, u), u, s'.At(r, w), w) {
      assert C.SamePlace(s.At(q, u), u, s.At(r, w), w);
    }
  }

  // undo_temp_mapping_on
  method RestoreFirstPage(m: Manager, frame: Frame, ghost t: C.State)
    requires m.Valid() && Hidden(m.flat, m.cur, frame, t) && m.HasTableFor(FIRST_USER)
    modifies m`flat, m.tables`frames
    ensures m.Valid() && m.flat == t
  {
    PutIsOrderly(m.flat, m.cur, Mapped(frame, true));
    m.Reflag(FIRST_USER, Mapped(frame, true));
  }

  // The frame of the hidden page is at no other address.
  lemma HiddenStaysAlone(s: C.State, p: nat, c: nat, image: map<VPage, Frame>, filled: map<Frame, Page>, next: VPage)
    requires Orderly(s) && p in s.space && s.At(p, FIRST_USER).p && c !in s.space && C.FreshImage(s, image, filled)
    ensures var t := C.LoadOf(s.Put(p, FIRST_USER, ZERO), c, image, filled, next);
            forall q, w :: t.At(q, w).p && t.At(q, w).base == s.At(p, FIRST_USER).base ==> w == FIRST_USER
  {
    var f, t := s.At(p, FIRST_USER).base, C.LoadOf(s.Put(p, FIRST_USER, ZERO), c, image, filled, next);
    C.FreshFrames(s, image, filled);
    C.LoadEntries(s.Put(p, FIRST_USER, ZERO), c, image, filled, next);
    forall q, w | t.At(q, w).p && t.At(q, w).base == f ensures w == FIRST_USER {
      assert C.SamePlace(s.At(p, FIRST_USER), FIRST_USER, s.At(q, w), w);
      assert q == c ==> t.At(q, w).base in image.Values;
    }
  }

  // Loading while the page is hidden, and then restoring it, is LoadBy.
  lemma HiddenLoad(s: C.State, p: nat, c: nat, image: map<VPage, Frame>, filled: map<Frame, Page>, next: VPage)
    requires Orderly(s) && p in s.space && s.At(p, FIRST_USER).p && c !in s.space
    requires C.FreshImage(s.Put(p, FIRST_USER, ZERO), image, filled)
    ensures C.FreshImage(s, image, filled)
    ensures Hidden(C.LoadOf(s.Put(p, FIRST_USER, ZERO), c, image, filled, next), p, s.At(p, FIRST_USER).base,
                   C.RestoreOf(C.LoadOf(s, c, image, filled, next), p))
  {
    var s0, f := s.Put(p, FIRST_USER, ZERO), s.At(p, FIRST_USER).base;
    var t := C.LoadOf(s0, c, image, filled, next);
    forall v {:trigger C.FreshPage(s, image, v)} ensures C.FreshPage(s, image, v) {
      assert C.FreshPage(s0, image, v);
    }
    C.LoadEntries(s0, c, image, filled, next);
    C.LoadEntries(s, c, image, filled, next);
    HiddenStaysAlone(s, p, c, image, filled, next);
    assert s0.space[p][FIRST_USER := Mapped(f, true)] == s.space[p][FIRST_USER := Mapped(f, true)];
    assert t.Put(p, FIRST_USER, Mapped(f, true)).space == C.RestoreOf(C.LoadOf(s, c, image, filled, next), p).space;
  }

  // With the page hidden, its table is there.
  lemma HiddenCanLoad(m: Manager, n: nat)
    requires m.Valid() && m.cur in m.flat.space && m.flat.At(m.cur, FIRST_USER) == ZERO && HasFirstTable(m.tables.frames, m.processes[m.cur].cr3)
    requires FIRST_USER + n <= USTACK && |m.mem.Keys - m.flat.used| >= n + 2 && m.tables.Spare() >= 2 + TableCountOf(n)
    ensures CanLoad(m, n)
  {
  }

  method HideForLoad(m: Manager, ghost n: nat) returns (frame: Frame)
    requires CanLoadBy(m, n)
    modifies m`flat, m.tables`frames
    ensures CanLoad(m, n) && Hiding(old(m.flat), m.cur, frame, m.flat)
  {
    frame := HideFirstPage(m);
    HiddenCanLoad(m, n);
  }

  // The load through the first page.
  method LoadThroughPage(m: Manager, child: nat, stack: Page, data: seq<Page>)
    returns (frame: Frame, ghost image: map<VPage, Frame>, ghost filled: map<Frame, Page>)
    requires CanLoadBy(m, |data|) && child < |m.processes| && !m.processes[child].live && child !in m.flat.space && child != m.cur
    modifies m`processes, m`mem, m`flat, m.tables, m.tables.bitmap.bytes
    ensures m.Valid() && C.FreshImage(old(m.flat), image, filled) && Loaded(image, filled, stack, data, |data|)
    ensures Hidden(m.flat, m.cur, frame, C.RestoreOf(C.LoadOf(old(m.flat), child, image, filled, FIRST_USER + |data|), m.cur))
    ensures m.HasTableFor(FIRST_USER)
  {
    ghost var s, ps := m.flat, m.processes;
    frame := HideForLoad(m, |data|);
    image, filled := LoadHidden(m, child, stack, data, frame, s);
    TableKept(ps, m.processes, child, m.cur, m.tables.frames);
  }

  lemma TableKept(ps: seq<Pcb>, ps': seq<Pcb>, child: nat, cur: nat, m: Memory)
    requires child < |ps| == |ps'| && ps' == ps[child := ps'[child]] && child != cur && cur < |ps| && HasFirstTable(m, ps[cur].cr3)
    ensures HasTable(m, ps'[cur].cr3, FIRST_USER / ENTRIES)
  {
  }

  lemma NewPid(m: Manager, child: nat)
    requires m.Valid() && m.cur in m.flat.space && child < |m.processes| && !m.processes[child].live
    ensures child !in m.flat.space && child != m.cur
  {
    assert Shows(m.processes, m.tables.frames, m.tables.dirs, m.flat, child);
  }

  // loader_load by such a process, once the pid is known
  method LoadAs(m: Manager, child: nat, stack: Page, data: seq<Page>)
    returns (ghost image: map<VPage, Frame>, ghost filled: map<Frame, Page>)
    requires CanLoadBy(m, |data|) && child < |m.processes| && !m.processes[child].live && child !in m.flat.space && child != m.cur
    modifies m`processes, m`mem, m`flat, m.tables, m.tables.bitmap.bytes
    ensures m.Valid() && C.FreshImage(old(m.flat), image, filled) && Loaded(image, filled, stack, data, |data|)
    ensures m.flat == C.RestoreOf(C.LoadOf(old(m.flat), child, image, filled, FIRST_USER + |data|), m.cur)
  {
    ghost var s, cur := m.flat, m.cur;
    var frame;
    frame, image, filled := LoadThroughPage(m, child, stack, data);
    ghost var t := C.RestoreOf(C.LoadOf(s, child, image, filled, FIRST_USER + |data|), cur);
    RestoreFirstPage(m, frame, t);
    assert m.flat == t && m.cur == cur;
  }

  /** loader_load by a process that uses its first page: the program is loaded
      through that page, which comes back writable and without its marks. */
  method LoadByProcess(m: Manager, stack: Page, data: seq<Page>)
    returns (child: nat, ghost image: map<VPage, Frame>, ghost filled: map<Frame, Page>)
    requires CanLoadBy(m, |data|) && exists p: nat :: p < |m.processes| && !m.processes[p].live
    modifies m`processes, m`mem, m`flat, m.tables, m.tables.bitmap.bytes
    ensures m.Valid() && child !in old(m.flat).space && C.FreshImage(old(m.flat), image, filled)
    ensures m.flat == C.RestoreOf(C.LoadOf(old(m.flat), child, image, filled, FIRST_USER + |data|), m.cur)
    ensures Loaded(image, filled, stack, data, |data|)
  {
    child := m.GetNewPid();
    NewPid(m, child);
    image, filled := LoadAs(m, child, stack, data);
  }

  // The next palloc of p is to ask for page next, which p does not have.
  ghost predicate GoesOnAt(s: C.State, p: nat, next: VPage) {
    var goesOn := p in s.space && p in s.next && s.next[p] == next && s.At(p, next) == ZERO;
    goesOn
  }

  // A new process has no page yet where its first palloc goes.
  lemma FirstFreePage(s: C.State, c: nat, image: map<VPage, Frame>, filled: map<Frame, Page>, stack: Page, data: seq<Page>)
    requires c !in s.space && Loaded(image, filled, stack, data, |data|) && FIRST_USER + |data| < USTACK
    ensures GoesOnAt(C.LoadOf(s, c, image, filled, FIRST_USER + |data|), c, FIRST_USER + |data|)
  {
  }

  // A program is loaded and runs.
  method LoadAndSwitch(m: Manager, stack: Page, data: seq<Page>) returns (child: nat)
    requires CanLoad(m, |data|) && (exists p: nat :: p < |m.processes| && !m.processes[p].live) && FIRST_USER + |data| < USTACK
    modifies m, m.tables, m.tables.bitmap.bytes
    ensures m.Valid() && m.cur == child && GoesOnAt(m.flat, child, FIRST_USER + |data|)
  {
    ghost var image, filled, s := map[], map[], m.flat;
    child, image, filled := Load(m, stack, data);
    FirstFreePage(s, child, image, filled, stack, data);
    m.SwitchTo(child);
  }

  // It asks for the page after its data.
  method LoadAndRun(m: Manager, stack: Page, data: seq<Page>) returns (child: nat, page: Option<VPage>)
    requires CanLoad(m, |data|) && (exists p: nat :: p < |m.processes| && !m.processes[p].live) && FIRST_USER + |data| < USTACK
    modifies m, m.tables, m.tables.bitmap.bytes
    ensures m.Valid() && m.cur == child && child in m.flat.space
    ensures page.Some? ==> page.value == FIRST_USER + |data| && IsRequested(m.flat.At(child, page.value))
    ensures page.None? ==> m.tables.Spare() == 0
  {
    child := LoadAndSwitch(m, stack, data);
    ghost var loaded := m.flat;
    page := m.Palloc();
    AfterPalloc(loaded, child, page.Some?);
  }

  lemma AfterPalloc(s: C.State, p: nat, ok: bool)
    requires p in s.space && p in s.next && s.At(p, s.next[p]) == ZERO
    ensures p in C.PallocOf(s, p, ok).space && (ok ==> IsRequested(C.PallocOf(s, p, ok).At(p, s.next[p])))
  {
  }
}
