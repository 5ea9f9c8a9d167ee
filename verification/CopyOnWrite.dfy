// Copy-on-write memory of all processes as a state machine. Page tables are
// flat here (PageTables.dfy refines them); one action is one fault, one
// system call or one memory access, since the kernel runs with interrupts off.
module CopyOnWrite {
  import opened Common
  import opened Paging

  type Pid = nat

  /** `space` holds the live processes only; `mem` the user frames, allocated
      or not, since frames are handed out with whatever they last held. */
  datatype State = State(
    space: map<Pid, map<VPage, Entry>>,
    mem: map<Frame, Page>,
    used: set<Frame>,
    next: map<Pid, VPage>)
  {
    function At(p: Pid, v: VPage): Entry {
      if p in space && v in space[p] then space[p][v] else ZERO
    }

    function Put(p: Pid, v: VPage, e: Entry): (s: State)
      requires p in space
      ensures forall q, w :: s.At(q, w) == if q == p && w == v then e else At(q, w)
      ensures s.space.Keys == space.Keys
    {
      var pages: map<VPage, Entry> := space[p][v := e];
      this.(space := space[p := pages])
    }

    // is_to_be_copied_on_write_by_other_processes
    ghost predicate HeldElsewhere(p: Pid, v: VPage) {
      exists q :: q != p && (At(q, v).p || At(q, v).cor)
    }

    // shared_with_other_processes
    ghost predicate SharedElsewhere(p: Pid, v: VPage) {
      exists q :: q != p && At(q, v).shared
    }
  }

  /** `got` is what mm_mem_alloc returned, `None` when the user zone is full;
      `ok` whether the kernel zone could supply a page table. `image` says
      which frames a new program gets and `filled` what is copied into them.
      A program is loaded through the first page of the caller: `Load` is by one
      that does not use it (the idle process), `LoadBy` by one that does. */
  datatype Action =
    | Read(p: Pid, v: VPage, off: nat)
    | Write(p: Pid, v: VPage, off: nat, b: bv8)
    | KernelWrite(p: Pid, v: VPage, off: nat, b: bv8)
    | Fault(p: Pid, v: VPage, write: bool, got: Option<Frame>)
    | Palloc(p: Pid, ok: bool)
    | Share(p: Pid, v: VPage, got: Option<Frame>)
    | Fork(p: Pid, c: Pid, k: Frame, stack: Page)
    | Load(p: Pid, c: Pid, image: map<VPage, Frame>, filled: map<Frame, Page>, next: VPage)
    | LoadBy(p: Pid, c: Pid, image: map<VPage, Frame>, filled: map<Frame, Page>, next: VPage)
    | Exit(p: Pid)

  // --- what each action does -------------------------------------------------

  // User-mode access rights of an entry, as the processor checks them.
  predicate Allowed(e: Entry, write: bool) {
    e.p && e.us && (write ==> e.rw)
  }

  predicate CanReturn(s: State, got: Option<Frame>) {
    match got
    case Some(f) => f in s.mem && f !in s.used
    case None => s.mem.Keys <= s.used
  }

  // mm_dir_free, then the PCB is released.
  ghost function ExitOf(s: State, p: Pid): State {
    State(s.space - {p}, s.mem, s.used - Freed(s, p), s.next - {p})
  }

  ghost predicate ReleasedAt(s: State, p: Pid, v: VPage) {
    s.At(p, v).p && !s.HeldElsewhere(p, v) && !s.SharedElsewhere(p, v)
  }

  ghost function Freed(s: State, p: Pid): set<Frame> {
    if p !in s.space then {} else set v | v in s.space[p] && ReleasedAt(s, p, v) :: s.At(p, v).base
  }

  // mm_user_allocate
  ghost function Allocate(s: State, p: Pid, v: VPage, got: Option<Frame>, us: bool): State
    requires p in s.space
  {
    match got
    case None => ExitOf(s, p)
    case Some(f) => s.(used := s.used + {f}).Put(p, v, Mapped(f, us))
  }

  // mm_copy_on_write
  ghost function CopyOnWrite(s: State, p: Pid, v: VPage, got: Option<Frame>): State
    requires p in s.space && s.At(p, v).base in s.mem
  {
    var e := s.At(p, v);
    if !s.HeldElsewhere(p, v) then s.Put(p, v, e.(rw := true, cor := false))
    else if got.None? then ExitOf(s, p)
    else Allocate(s.(mem := s.mem[got.value := s.mem[e.base]]), p, v, got, e.us)
  }

  // page_fault_handler, for a user process
  ghost function PageFault(s: State, p: Pid, v: VPage, got: Option<Frame>): State
    requires p in s.space && (IsToBeCopiedOnWrite(s.At(p, v)) ==> s.At(p, v).base in s.mem)
  {
    var e := s.At(p, v);
    if IsRequested(e) then Allocate(s, p, v, got, true)
    else if IsToBeCopiedOnWrite(e) then CopyOnWrite(s, p, v, got)
    else ExitOf(s, p)
  }

  // palloc: the next page is consumed even when no page table could be made.
  function PallocOf(s: State, p: Pid, ok: bool): State
    requires p in s.space && p in s.next
  {
    var v := s.next[p];
    var s1 := s.(next := s.next[p := v + 1]);
    if ok then s1.Put(p, v, s.At(p, v).(rw := true)) else s1
  }

  // mm_share_page
  ghost function ShareOf(s: State, p: Pid, v: VPage, got: Option<Frame>): State
    requires p in s.space
  {
    var e := s.At(p, v);
    if e.p then s.Put(p, v, e.(shared := true))
    else if IsRequested(e) then
      if got.None? then ExitOf(s, p)
      else
        var s1 := Allocate(s, p, v, got, true);
        s1.Put(p, v, s1.At(p, v).(shared := true))
    else s
  }

  // fork: copy_nonkernel_pages and create_child_kernel_stack
  function ForkOf(s: State, p: Pid, c: Pid, k: Frame, stack: Page): State
    requires p in s.space && p in s.next
  {
    var parent := map v | v in s.space[p] :: if v == KSTACK then s.space[p][v] else ForkedParent(s.space[p][v]);
    var child := map v | v in s.space[p].Keys + {KSTACK} ::
                   if v == KSTACK then Mapped(k, false) else ForkedChild(s.space[p][v]);
    State(s.space[p := parent][c := child], s.mem[k := stack], s.used + {k}, s.next[c := s.next[p]])
  }

  ghost predicate FreshPage(s: State, image: map<VPage, Frame>, v: VPage) {
    v in image ==> CanReturn(s, Some(image[v]))
  }

  ghost predicate OwnFrame(image: map<VPage, Frame>, v: VPage, w: VPage) {
    v in image && w in image && image[v] == image[w] ==> v == w
  }

  // The frames of a new program: fresh, and different for different pages.
  ghost predicate FreshImage(s: State, image: map<VPage, Frame>, filled: map<Frame, Page>) {
    var all :=
      && (forall v {:trigger FreshPage(s, image, v)} :: FreshPage(s, image, v))
      && (forall v, w {:trigger OwnFrame(image, v, w)} :: OwnFrame(image, v, w))
      && filled.Keys <= image.Values;
    all
  }

  lemma FreshFrames(s: State, image: map<VPage, Frame>, filled: map<Frame, Page>)
    requires FreshImage(s, image, filled)
    ensures image.Values !! s.used && filled.Keys !! s.used && image.Values <= s.mem.Keys
  {
    assert forall v :: v in image ==> FreshPage(s, image, v);
  }

  // loader_load: the kernel stack, the user stack and the pages of the program.
  function LoadOf(s: State, c: Pid, image: map<VPage, Frame>, filled: map<Frame, Page>, next: VPage): State {
    var pages := map v | v in image :: Mapped(image[v], v != KSTACK);
    State(s.space[c := pages], s.mem + filled, s.used + image.Values, s.next[c := next])
  }

  // undo_temp_mapping_on: a process that has loaded a program gets its first page
  // back, but writable and without its marks.
  function RestoreOf(s: State, p: Pid): State
    requires p in s.space
  {
    var e := s.At(p, FIRST_USER);
    s.Put(p, FIRST_USER, Mapped(e.base, true))
  }

  function Poke(s: State, p: Pid, v: VPage, off: nat, b: bv8): State
    requires s.At(p, v).base in s.mem && off < PAGE_SIZE
  {
    var f := s.At(p, v).base;
    s.(mem := s.mem[f := s.mem[f][off := b]])
  }

  ghost predicate Enabled(s: State, a: Action) {
    a.p in s.space && a.p in s.next &&
    match a
    case Read(p, v, off) => off < PAGE_SIZE && Allowed(s.At(p, v), false)
    case Write(p, v, off, b) => off < PAGE_SIZE && Allowed(s.At(p, v), true) && s.At(p, v).base in s.mem
    case KernelWrite(p, v, off, b) => off < PAGE_SIZE && s.At(p, v).p && s.At(p, v).base in s.mem
    case Fault(p, v, write, got) =>
      && CanReturn(s, got) && !Allowed(s.At(p, v), write)
      && (IsToBeCopiedOnWrite(s.At(p, v)) ==> s.At(p, v).base in s.mem)
    case Palloc(p, ok) => !s.At(p, s.next[p]).p      // kassert in mm_set_pt_entry
    case Share(p, v, got) => CanReturn(s, got)
    case Fork(p, c, k, stack) => c !in s.space && CanReturn(s, Some(k))
    // The loader borrows its first page; only for the idle process is that unused.
    case Load(p, c, image, filled, next) => c !in s.space && FreshImage(s, image, filled) && s.At(p, FIRST_USER) == ZERO
    case LoadBy(p, c, image, filled, next) => c !in s.space && FreshImage(s, image, filled) && s.At(p, FIRST_USER).p
    case Exit(p) => true
  }

  ghost function Next(s: State, a: Action): State
    requires Enabled(s, a)
  {
    match a
    case Read(p, v, off) => s
    case Write(p, v, off, b) => Poke(s, p, v, off, b)
    case KernelWrite(p, v, off, b) => Poke(s, p, v, off, b)
    case Fault(p, v, write, got) => PageFault(s, p, v, got)
    case Palloc(p, ok) => PallocOf(s, p, ok)
    case Share(p, v, got) => ShareOf(s, p, v, got)
    case Fork(p, c, k, stack) => ForkOf(s, p, c, k, stack)
    case Load(p, c, image, filled, next) => LoadOf(s, c, image, filled, next)
    case LoadBy(p, c, image, filled, next) => RestoreOf(LoadOf(s, c, image, filled, next), p)
    case Exit(p) => ExitOf(s, p)
  }

  // --- the frame-ownership invariants -----------------------------------------

  // What an entry may be, whatever the flags of its mapping say.
  predicate SoundEntry(e: Entry, v: VPage) {
    if e.p then !e.us ==> v == KSTACK && e.rw else e == ZERO || e == REQUESTED
  }

  predicate SamePlace(e1: Entry, v1: VPage, e2: Entry, v2: VPage) {
    e1.p && e2.p && e1.base == e2.base ==> v1 == v2
  }

  /** Every mapped frame is allocated, and a frame is mapped at one address
      only. No call can break this. */
  ghost predicate Placed(s: State) {
    && s.used <= s.mem.Keys
    && (forall p, v :: SoundEntry(s.At(p, v), v))
    && (forall p, v :: s.At(p, v).p ==> s.At(p, v).base in s.used)
    && (forall p, v, q, w {:trigger SamePlace(s.At(p, v), v, s.At(q, w), w)} :: SamePlace(s.At(p, v), v, s.At(q, w), w))
  }

  // Entries are in one of four shapes: absent, requested, private or shared.
  predicate GoodEntry(e: Entry, v: VPage) {
    e.p ==> (e.rw <==> !e.cor) && (e.shared ==> e.rw)
  }

  // Two mappings of one frame: both shared or both read-only.
  predicate Compatible(e1: Entry, v1: VPage, e2: Entry, v2: VPage) {
    e1.p && e2.p && e1.base == e2.base ==>
      v1 == v2 && ((e1.shared && e2.shared) || (!e1.shared && !e2.shared && !e1.rw && !e2.rw))
  }

  /** Besides, nobody can write to a frame that another process has, unless
      both share it. share_page on a page marked COR breaks this. */
  ghost predicate Inv(s: State) {
    && Placed(s)
    && (forall p, v :: GoodEntry(s.At(p, v), v))
    && (forall p, v, q, w {:trigger Compatible(s.At(p, v), v, s.At(q, w), w)} ::
          (p == q ==> v != w) ==> Compatible(s.At(p, v), v, s.At(q, w), w))
  }

  // --- eager copying: the memory a user is promised ----------------------------

  /** A page of the eager machine owns its contents. A `Common` page names a
      block of memory that several processes see; `us` says user mode may use it. */
  datatype Slot = Absent | Requested | Private(page: Page, us: bool) | Common(id: Frame, us: bool)

  datatype Eager = Eager(view: map<Pid, map<VPage, Slot>>, common: map<Frame, Page>, next: map<Pid, VPage>) {
    function At(p: Pid, v: VPage): Slot {
      if p in view && v in view[p] then view[p][v] else Absent
    }

    // Same pages everywhere except where `f` says otherwise.
    ghost predicate SameBut(a: Eager, p: Pid, v: VPage) {
      && a.view.Keys == view.Keys
      && forall q, w :: (q == p && w == v) || a.At(q, w) == At(q, w)
    }
  }

  // The two machines' memories cannot be told apart.
  ghost predicate Same(a: Eager, a': Eager) {
    SamePages(a, a') && a'.next == a.next && a'.common == a.common
  }

  ghost predicate SamePages(a: Eager, a': Eager) {
    a'.view.Keys == a.view.Keys && forall p, v :: a'.At(p, v) == a.At(p, v)
  }

  function UserPage(x: Slot): bool {
    (x.Private? || x.Common?) && x.us
  }

  // The byte that process p sees.
  function Sees(a: Eager, p: Pid, v: VPage, off: nat): Option<bv8>
    requires off < PAGE_SIZE
  {
    match a.At(p, v)
    case Private(page, us) => Some(page[off])
    case Common(id, us) => if id in a.common then Some(a.common[id][off]) else None
    case _ => None
  }

  ghost predicate EagerExit(a: Eager, p: Pid, a': Eager) {
    && a'.view.Keys == a.view.Keys - {p}
    && (forall q, w :: q != p ==> a'.At(q, w) == a.At(q, w))
    && a'.next == a.next - {p}
    && (forall id :: id in a'.common <==> id in a.common && exists q, w :: q != p && IsCommon(a.At(q, w), id))
    && (forall id :: id in a'.common ==> a'.common[id] == a.common[id])
  }

  predicate IsCommon(x: Slot, id: Frame) {
    x.Common? && x.id == id
  }

  ghost predicate EagerWrite(a: Eager, p: Pid, v: VPage, off: nat, b: bv8, a': Eager) {
    off < PAGE_SIZE && a'.next == a.next &&
    match a.At(p, v)
    case Private(page, us) =>
      a'.common == a.common && a.SameBut(a', p, v) && a'.At(p, v) == Private(page[off := b], us)
    case Common(id, us) =>
      && id in a.common
      && SamePages(a, a')
      && a'.common == a.common[id := a.common[id][off := b]]
    case _ => false
  }

  // A block of memory, new to everybody, becomes page v of p.
  ghost predicate BecomesCommon(a: Eager, p: Pid, v: VPage, page: Page, us: bool, a': Eager) {
    && a.SameBut(a', p, v) && a'.next == a.next
    && a'.At(p, v).Common? && a'.At(p, v).us == us
    && a'.At(p, v).id !in a.common
    && a'.common == a.common[a'.At(p, v).id := page]
  }

  // fork copies every page that is not common at once; the kernel stack is new.
  ghost predicate EagerFork(a: Eager, p: Pid, c: Pid, stack: Page, a': Eager) {
    && a'.view.Keys == a.view.Keys + {c}
    && p in a.next && a'.next == a.next[c := a.next[p]]
    && a'.common == a.common
    && (forall q, v :: q != c ==> a'.At(q, v) == a.At(q, v))
    && (forall v :: a'.At(c, v) == if v == KSTACK then Private(stack, false) else a.At(p, v))
  }

  // A new process whose pages are its own; nobody else notices. The user stack
  // is not filled, so what is in it is left open.
  ghost predicate EagerLoad(a: Eager, c: Pid, image: map<VPage, Frame>, filled: map<Frame, Page>, next: VPage, a': Eager) {
    && a'.view.Keys == a.view.Keys + {c} && a'.next == a.next[c := next] && a'.common == a.common
    && forall q, v {:trigger LoadedPage(a, a', c, image, filled, q, v)} :: LoadedPage(a, a', c, image, filled, q, v)
  }

  // Page v of process q, once the program of c is loaded.
  ghost predicate LoadedPage(a: Eager, a': Eager, c: Pid, image: map<VPage, Frame>, filled: map<Frame, Page>, q: Pid, v: VPage) {
    if q != c then a'.At(q, v) == a.At(q, v)
    else if v !in image then a'.At(c, v) == Absent
    else
      && a'.At(c, v).Private? && a'.At(c, v).us == (v != KSTACK)
      && (image[v] in filled ==> a'.At(c, v).page == filled[image[v]])
  }

  // The first page of p is its own, whatever it was; nothing else changes.
  ghost predicate EagerRestore(a: Eager, p: Pid, a': Eager) {
    a.SameBut(a', p, FIRST_USER) && a'.next == a.next &&
    match a.At(p, FIRST_USER)
    case Private(page, us) => a'.At(p, FIRST_USER) == Private(page, true) && a'.common == a.common
    case Common(id, us) =>
      id in a.common && a'.At(p, FIRST_USER) == Private(a.common[id], true) && a'.common == a.common - {id}
    case _ => false
  }

  /** The steps of the eager machine. A fault on a page the process may use is
      invisible; a first touch gives a page of unspecified contents; a
      process is killed for an illegal access or when memory has run out. */
  ghost predicate EagerStep(a: Eager, x: Action, a': Eager) {
    match x
    case Read(p, v, off) => Same(a, a')
    case Write(p, v, off, b) => EagerWrite(a, p, v, off, b, a')
    case KernelWrite(p, v, off, b) => EagerWrite(a, p, v, off, b, a')
    case Fault(p, v, write, got) =>
      if UserPage(a.At(p, v)) then write && (Same(a, a') || (got.None? && EagerExit(a, p, a')))
      else if a.At(p, v).Requested? then
        if got.None? then EagerExit(a, p, a')
        else a'.next == a.next && a'.common == a.common && a.SameBut(a', p, v)
             && a'.At(p, v).Private? && a'.At(p, v).us
      else EagerExit(a, p, a')
    case Palloc(p, ok) =>
      && p in a.next && a'.next == a.next[p := a.next[p] + 1] && a'.common == a.common
      && a.SameBut(a', p, a.next[p])
      && a'.At(p, a.next[p]) == if ok then Requested else a.At(p, a.next[p])
    case Share(p, v, got) =>
      (match a.At(p, v)
       case Private(page, us) => BecomesCommon(a, p, v, page, us, a')
       case Requested =>
         if got.None? then EagerExit(a, p, a')
         else exists page :: BecomesCommon(a, p, v, page, true, a')
       case _ => Same(a, a'))
    case Fork(p, c, k, stack) => EagerFork(a, p, c, stack, a')
    case Load(p, c, image, filled, next) => EagerLoad(a, c, image, filled, next, a')
    case LoadBy(p, c, image, filled, next) => exists a1 :: EagerLoad(a, c, image, filled, next, a1) && EagerRestore(a1, p, a')
    case Exit(p) => EagerExit(a, p, a')
  }

  // --- the abstraction -----------------------------------------------------------

  function SlotOf(e: Entry, mem: map<Frame, Page>): Slot
    requires e.p ==> e.base in mem
  {
    if !e.p then (if e.rw then Requested else Absent)
    else if e.shared then Common(e.base, e.us)
    else Private(mem[e.base], e.us)
  }

  ghost predicate IsShared(s: State, f: Frame) {
    exists p, v :: s.At(p, v).p && s.At(p, v).shared && s.At(p, v).base == f
  }

  ghost function Blocks(s: State): (m: map<Frame, Page>)
    requires Inv(s)
    ensures forall f :: f in m <==> f in s.used && IsShared(s, f)
    ensures forall f :: f in m ==> m[f] == s.mem[f]
  {
    map f | f in s.used && IsShared(s, f) :: s.mem[f]
  }

  ghost function Views(s: State): map<Pid, map<VPage, Slot>>
    requires Inv(s)
  {
    map p | p in s.space :: map v | v in s.space[p] :: SlotOf(s.At(p, v), s.mem)
  }

  ghost function Abs(s: State): (a: Eager)
    requires Inv(s)
    ensures forall p, v {:trigger a.At(p, v)} :: a.At(p, v) == SlotOf(s.At(p, v), s.mem)
  {
    Eager(Views(s), Blocks(s), s.next)
  }

  // The byte the processor would fetch.
  function Fetch(s: State, p: Pid, v: VPage, off: nat): Option<bv8>
    requires off < PAGE_SIZE
  {
    var e := s.At(p, v);
    if e.p && e.base in s.mem then Some(s.mem[e.base][off]) else None
  }

  lemma FetchIsSeen(s: State, p: Pid, v: VPage, off: nat)
    requires Inv(s) && off < PAGE_SIZE
    ensures Fetch(s, p, v, off) == Sees(Abs(s), p, v, off)
  {
    var e := s.At(p, v);
    if e.p && e.shared {
      assert IsShared(s, e.base);
    }
  }

  // --- frames stay in their places, whatever is called -------------------------------

  // Teardown never releases a frame that another live process maps.
  lemma NotFreed(s: State, p: Pid, q: Pid, w: VPage)
    requires Placed(s) && q != p && s.At(q, w).p
    ensures s.At(q, w).base !in Freed(s, p)
  {
    forall v | ReleasedAt(s, p, v) ensures s.At(p, v).base != s.At(q, w).base {
      assert SamePlace(s.At(p, v), v, s.At(q, w), w);
    }
  }

  lemma ExitKeepsPlaced(s: State, p: Pid)
    requires Placed(s) && p in s.space
    ensures Placed(ExitOf(s, p))
    ensures forall q, v :: ExitOf(s, p).At(q, v) == if q == p then ZERO else s.At(q, v)
  {
    var s' := ExitOf(s, p);
    assert forall q, v :: s'.At(q, v) == if q == p then ZERO else s.At(q, v);
    forall q, w | s'.At(q, w).p ensures s'.At(q, w).base !in Freed(s, p) {
      NotFreed(s, p, q, w);
    }
    forall q, v, r, w ensures SamePlace(s'.At(q, v), v, s'.At(r, w), w) {
      assert SamePlace(s.At(q, v), v, s.At(r, w), w);
    }
  }

  // A page gets a frame that was free.
  lemma NewFrameKeepsPlaced(s: State, p: Pid, v: VPage, f: Frame, us: bool)
    requires Placed(s) && p in s.space && CanReturn(s, Some(f)) && (us || v == KSTACK)
    ensures Placed(s.(used := s.used + {f}).Put(p, v, Mapped(f, us)))
  {
    var s1 := s.(used := s.used + {f});
    assert forall q, w :: s1.At(q, w) == s.At(q, w);
    var s' := s1.Put(p, v, Mapped(f, us));
    forall q, u, r, w ensures SamePlace(s'.At(q, u), u, s'.At(r, w), w) {
      assert SamePlace(s.At(q, u), u, s.At(r, w), w);
    }
  }

  lemma AllocateKeepsPlaced(s: State, p: Pid, v: VPage, got: Option<Frame>, us: bool)
    requires Placed(s) && p in s.space && CanReturn(s, got) && us
    ensures Placed(Allocate(s, p, v, got, us))
  {
    if got.None? {
      ExitKeepsPlaced(s, p);
    } else {
      NewFrameKeepsPlaced(s, p, v, got.value, us);
    }
  }

  lemma SameEntriesKeepPlaced(s: State, s': State)
    requires Placed(s) && s'.space == s.space && s'.used == s.used && s'.mem.Keys == s.mem.Keys
    ensures Placed(s') && forall p, v :: s'.At(p, v) == s.At(p, v)
  {
    assert forall p, v :: s'.At(p, v) == s.At(p, v);
    forall q, u, r, w ensures SamePlace(s'.At(q, u), u, s'.At(r, w), w) {
      assert SamePlace(s.At(q, u), u, s.At(r, w), w);
    }
  }

  // The flags of a mapping change, or of a page that is not mapped.
  lemma ReflagKeepsPlaced(s: State, p: Pid, v: VPage, e: Entry)
    requires Placed(s) && p in s.space && SoundEntry(e, v)
    requires e.p ==> s.At(p, v).p && e.base == s.At(p, v).base
    ensures Placed(s.Put(p, v, e))
  {
    var s' := s.Put(p, v, e);
    forall q, u, r, w ensures SamePlace(s'.At(q, u), u, s'.At(r, w), w) {
      assert SamePlace(s.At(q, u), u, s.At(r, w), w);
    }
  }

  lemma FaultKeepsPlaced(s: State, p: Pid, v: VPage, got: Option<Frame>)
    requires Placed(s) && p in s.space && CanReturn(s, got)
    ensures Placed(PageFault(s, p, v, got))
  {
    var e := s.At(p, v);
    if IsRequested(e) {
      AllocateKeepsPlaced(s, p, v, got, true);
    } else if !IsToBeCopiedOnWrite(e) {
      ExitKeepsPlaced(s, p);
    } else if !s.HeldElsewhere(p, v) {
      ReflagKeepsPlaced(s, p, v, e.(rw := true, cor := false));
    } else if got.None? {
      ExitKeepsPlaced(s, p);
    } else {
      var s1 := s.(mem := s.mem[got.value := s.mem[e.base]]);
      SameEntriesKeepPlaced(s, s1);
      AllocateKeepsPlaced(s1, p, v, got, e.us);
    }
  }

  lemma PallocKeepsPlaced(s: State, p: Pid, ok: bool)
    requires Placed(s) && p in s.space && p in s.next && !s.At(p, s.next[p]).p
    ensures Placed(PallocOf(s, p, ok))
  {
    var v := s.next[p];
    var s1 := s.(next := s.next[p := v + 1]);
    SameEntriesKeepPlaced(s, s1);
    if ok {
      ReflagKeepsPlaced(s1, p, v, s.At(p, v).(rw := true));
    }
  }

  lemma ShareKeepsPlaced(s: State, p: Pid, v: VPage, got: Option<Frame>)
    requires Placed(s) && p in s.space && CanReturn(s, got)
    ensures Placed(ShareOf(s, p, v, got))
  {
    var e := s.At(p, v);
    if e.p {
      ReflagKeepsPlaced(s, p, v, e.(shared := true));
    } else if IsRequested(e) {
      AllocateKeepsPlaced(s, p, v, got, true);
      if got.Some? {
        var s1 := Allocate(s, p, v, got, true);
        ReflagKeepsPlaced(s1, p, v, s1.At(p, v).(shared := true));
      }
    }
  }

  lemma ForkEntries(s: State, p: Pid, c: Pid, k: Frame, stack: Page)
    requires p in s.space && p in s.next && c !in s.space
    ensures var s' := ForkOf(s, p, c, k, stack);
            forall q, v :: s'.At(q, v) ==
              if q == p then (if v == KSTACK then s.At(p, v) else ForkedParent(s.At(p, v)))
              else if q == c then (if v == KSTACK then Mapped(k, false) else ForkedChild(s.At(p, v)))
              else s.At(q, v)
  {
  }

  lemma ForkKeepsPlaced(s: State, p: Pid, c: Pid, k: Frame, stack: Page)
    requires Placed(s) && p in s.space && p in s.next && c !in s.space && CanReturn(s, Some(k))
    ensures Placed(ForkOf(s, p, c, k, stack))
  {
    ForkEntries(s, p, c, k, stack);
    var s' := ForkOf(s, p, c, k, stack);
    forall q, u, r, w ensures SamePlace(s'.At(q, u), u, s'.At(r, w), w) {
      assert SamePlace(s.At(if q == c then p else q, u), u, s.At(if r == c then p else r, w), w);
    }
  }

  lemma LoadEntries(s: State, c: Pid, image: map<VPage, Frame>, filled: map<Frame, Page>, next: VPage)
    requires c !in s.space
    ensures var s' := LoadOf(s, c, image, filled, next);
            forall q, v :: s'.At(q, v) ==
              if q != c then s.At(q, v) else if v in image then Mapped(image[v], v != KSTACK) else ZERO
  {
  }

  lemma LoadKeepsPlaced(s: State, c: Pid, image: map<VPage, Frame>, filled: map<Frame, Page>, next: VPage)
    requires Placed(s) && c !in s.space && FreshImage(s, image, filled)
    ensures Placed(LoadOf(s, c, image, filled, next))
  {
    LoadEntries(s, c, image, filled, next);
    FreshFrames(s, image, filled);
    var s' := LoadOf(s, c, image, filled, next);
    forall q, u, r, w ensures SamePlace(s'.At(q, u), u, s'.At(r, w), w) {
      assert SamePlace(s.At(q, u), u, s.At(r, w), w) && OwnFrame(image, u, w) && FreshPage(s, image, u) && FreshPage(s, image, w);
    }
  }

  lemma StepKeepsPlaced(s: State, a: Action)
    requires Placed(s) && Enabled(s, a)
    ensures Placed(Next(s, a))
  {
    match a
    case Read(p, v, off) =>
    case Write(p, v, off, b) => SameEntriesKeepPlaced(s, Poke(s, p, v, off, b));
    case KernelWrite(p, v, off, b) => SameEntriesKeepPlaced(s, Poke(s, p, v, off, b));
    case Fault(p, v, write, got) => FaultKeepsPlaced(s, p, v, got);
    case Palloc(p, ok) => PallocKeepsPlaced(s, p, ok);
    case Share(p, v, got) => ShareKeepsPlaced(s, p, v, got);
    case Fork(p, c, k, stack) => ForkKeepsPlaced(s, p, c, k, stack);
    case Load(p, c, image, filled, next) => LoadKeepsPlaced(s, c, image, filled, next);
    case LoadBy(p, c, image, filled, next) =>
      LoadKeepsPlaced(s, c, image, filled, next);
      LoadKeepsOwner(s, p, c, image, filled, next);
      ReflagKeepsPlaced(LoadOf(s, c, image, filled, next), p, FIRST_USER, Mapped(s.At(p, FIRST_USER).base, true));
    case Exit(p) => ExitKeepsPlaced(s, p);
  }

  // --- nobody writes to another's frame, while share_page is used as meant -------------

  lemma ExitKeepsInv(s: State, p: Pid)
    requires Inv(s) && p in s.space
    ensures Inv(ExitOf(s, p))
    ensures forall q, v :: ExitOf(s, p).At(q, v) == if q == p then ZERO else s.At(q, v)
  {
    ExitKeepsPlaced(s, p);
    var s' := ExitOf(s, p);
    forall q, v, r, w | q == r ==> v != w ensures Compatible(s'.At(q, v), v, s'.At(r, w), w) {
      assert Compatible(s.At(q, v), v, s.At(r, w), w);
    }
  }

  lemma AllocateKeepsInv(s: State, p: Pid, v: VPage, got: Option<Frame>, us: bool)
    requires Inv(s) && p in s.space && CanReturn(s, got) && us
    ensures Inv(Allocate(s, p, v, got, us))
  {
    AllocateKeepsPlaced(s, p, v, got, us);
    if got.None? {
      ExitKeepsInv(s, p);
    } else {
      var s1 := s.(used := s.used + {got.value});
      assert forall q, w :: s1.At(q, w) == s.At(q, w);
      var s' := s1.Put(p, v, Mapped(got.value, us));
      forall q, u, r, w | q == r ==> u != w ensures Compatible(s'.At(q, u), u, s'.At(r, w), w) {
        assert Compatible(s.At(q, u), u, s.At(r, w), w);
      }
    }
  }

  lemma SameEntriesKeepInv(s: State, s': State)
    requires Inv(s) && s'.space == s.space && s'.used == s.used && s'.mem.Keys == s.mem.Keys
    ensures Inv(s') && forall p, v :: s'.At(p, v) == s.At(p, v)
  {
    SameEntriesKeepPlaced(s, s');
    forall q, u, r, w | q == r ==> u != w ensures Compatible(s'.At(q, u), u, s'.At(r, w), w) {
      assert Compatible(s.At(q, u), u, s.At(r, w), w);
    }
  }

  lemma PokeKeepsInv(s: State, p: Pid, v: VPage, off: nat, b: bv8)
    requires Inv(s) && s.At(p, v).p && off < PAGE_SIZE
    ensures Inv(Poke(s, p, v, off, b))
  {
    SameEntriesKeepInv(s, Poke(s, p, v, off, b));
  }

  // Rewriting the flags of a mapping that is not aliased.
  lemma ReflagKeepsInv(s: State, p: Pid, v: VPage, e: Entry)
    requires Inv(s) && p in s.space && s.At(p, v).p && e.base == s.At(p, v).base && e.p
    requires SoundEntry(e, v) && GoodEntry(e, v)
    requires forall q :: q != p ==> !(s.At(q, v).p && s.At(q, v).base == e.base)
    ensures Inv(s.Put(p, v, e))
  {
    ReflagKeepsPlaced(s, p, v, e);
    var s' := s.Put(p, v, e);
    forall q, u, r, w | q == r ==> u != w ensures Compatible(s'.At(q, u), u, s'.At(r, w), w) {
      assert Compatible(s.At(q, u), u, s.At(r, w), w);
    }
  }

  lemma FaultKeepsInv(s: State, p: Pid, v: VPage, got: Option<Frame>)
    requires Inv(s) && p in s.space && CanReturn(s, got)
    ensures Inv(PageFault(s, p, v, got))
  {
    var e := s.At(p, v);
    if IsRequested(e) {
      AllocateKeepsInv(s, p, v, got, true);
    } else if !IsToBeCopiedOnWrite(e) {
      ExitKeepsInv(s, p);
    } else if s.HeldElsewhere(p, v) {
      if got.None? {
        ExitKeepsInv(s, p);
      } else {
        var s1 := s.(mem := s.mem[got.value := s.mem[e.base]]);
        SameEntriesKeepInv(s, s1);
        AllocateKeepsInv(s1, p, v, got, e.us);
      }
    } else {
      assert forall q :: q != p ==> !s.At(q, v).p;
      ReflagKeepsInv(s, p, v, e.(rw := true, cor := false));
    }
  }

  // A fault kills the process or changes the one page.
  lemma FaultChangesOnePage(s: State, p: Pid, v: VPage, got: Option<Frame>)
    requires Placed(s) && p in s.space && CanReturn(s, got)
    ensures var s' := PageFault(s, p, v, got);
            s' == ExitOf(s, p) || forall q, w :: !(q == p && w == v) ==> s'.At(q, w) == s.At(q, w)
  {
    if got.Some? {
      if s.At(p, v).p {
        var s1 := s.(mem := s.mem[got.value := s.mem[s.At(p, v).base]]);
        assert forall q, w :: s1.(used := s.used + {got.value}).At(q, w) == s.At(q, w);
      }
      assert forall q, w :: s.(used := s.used + {got.value}).At(q, w) == s.At(q, w);
    }
  }

  // After a fault that does not kill it, a process may go on with its access.
  lemma FaultMakesProgress(s: State, p: Pid, v: VPage, write: bool)
    requires Placed(s) && p in s.space && p in s.next && !Allowed(s.At(p, v), write)
    ensures forall got :: CanReturn(s, got) && p in PageFault(s, p, v, got).space ==>
              Allowed(PageFault(s, p, v, got).At(p, v), write)
  {
  }

  lemma PallocKeepsInv(s: State, p: Pid, ok: bool)
    requires Inv(s) && p in s.space && p in s.next && !s.At(p, s.next[p]).p
    ensures Inv(PallocOf(s, p, ok))
  {
    PallocKeepsPlaced(s, p, ok);
    var s' := PallocOf(s, p, ok);
    assert forall q, w :: s'.At(q, w) == s.At(q, w) || !s'.At(q, w).p;
    forall q, u, r, w | q == r ==> u != w ensures Compatible(s'.At(q, u), u, s'.At(r, w), w) {
      assert Compatible(s.At(q, u), u, s.At(r, w), w);
    }
  }

  lemma ForkKeepsInv(s: State, p: Pid, c: Pid, k: Frame, stack: Page)
    requires Inv(s) && p in s.space && p in s.next && c !in s.space && CanReturn(s, Some(k))
    ensures Inv(ForkOf(s, p, c, k, stack))
  {
    ForkKeepsPlaced(s, p, c, k, stack);
    ForkEntries(s, p, c, k, stack);
    var s' := ForkOf(s, p, c, k, stack);
    forall q, u, r, w | q == r ==> u != w ensures Compatible(s'.At(q, u), u, s'.At(r, w), w) {
      var q0, r0 := if q == c then p else q, if r == c then p else r;
      if q0 == r0 ==> u != w {
        assert Compatible(s.At(q0, u), u, s.At(r0, w), w);
      }
    }
  }

  lemma LoadKeepsInv(s: State, c: Pid, image: map<VPage, Frame>, filled: map<Frame, Page>, next: VPage)
    requires Inv(s) && c !in s.space && FreshImage(s, image, filled)
    ensures Inv(LoadOf(s, c, image, filled, next))
  {
    LoadKeepsPlaced(s, c, image, filled, next);
    LoadEntries(s, c, image, filled, next);
    var s' := LoadOf(s, c, image, filled, next);
    forall q, u, r, w | q == r ==> u != w ensures Compatible(s'.At(q, u), u, s'.At(r, w), w) {
      assert Compatible(s.At(q, u), u, s.At(r, w), w) && OwnFrame(image, u, w) && FreshPage(s, image, u) && FreshPage(s, image, w);
    }
  }

  ghost predicate SoleOwner(s: State, p: Pid, v: VPage) {
    forall q :: q != p && s.At(q, v).p ==> s.At(q, v).base != s.At(p, v).base
  }

  lemma RestoreKeepsInvIff(s: State, p: Pid)
    requires Inv(s) && p in s.space && s.At(p, FIRST_USER).p
    ensures Placed(RestoreOf(s, p))
    ensures Inv(RestoreOf(s, p)) <==> SoleOwner(s, p, FIRST_USER)
  {
    var e := s.At(p, FIRST_USER);
    ReflagKeepsPlaced(s, p, FIRST_USER, Mapped(e.base, true));
    if q :| q != p && s.At(q, FIRST_USER).p && s.At(q, FIRST_USER).base == e.base {
      assert !Compatible(RestoreOf(s, p).At(p, FIRST_USER), FIRST_USER, RestoreOf(s, p).At(q, FIRST_USER), FIRST_USER);
    } else {
      forall q | q != p && s.At(q, FIRST_USER).p ensures s.At(q, FIRST_USER).base != e.base {
        assert Compatible(s.At(p, FIRST_USER), FIRST_USER, s.At(q, FIRST_USER), FIRST_USER);
      }
      ReflagKeepsInv(s, p, FIRST_USER, Mapped(e.base, true));
    }
  }

  /** A process that uses its first page and loads a program keeps the invariant
      exactly when no other process has that page: after a fork it gets it back
      writable, and can write to the page of its child. */
  lemma LoadByKeepsInvIff(s: State, p: Pid, c: Pid, image: map<VPage, Frame>, filled: map<Frame, Page>, next: VPage)
    requires Inv(s) && Enabled(s, LoadBy(p, c, image, filled, next))
    ensures Inv(Next(s, LoadBy(p, c, image, filled, next))) <==> SoleOwner(s, p, FIRST_USER)
  {
    var s1 := LoadOf(s, c, image, filled, next);
    LoadKeepsInv(s, c, image, filled, next);
    LoadKeepsOwner(s, p, c, image, filled, next);
    RestoreKeepsInvIff(s1, p);
  }

  lemma LoadKeepsOwner(s: State, p: Pid, c: Pid, image: map<VPage, Frame>, filled: map<Frame, Page>, next: VPage)
    requires Placed(s) && Enabled(s, LoadBy(p, c, image, filled, next))
    ensures var s1 := LoadOf(s, c, image, filled, next);
            && p in s1.space && s1.At(p, FIRST_USER) == s.At(p, FIRST_USER)
            && (SoleOwner(s1, p, FIRST_USER) <==> SoleOwner(s, p, FIRST_USER))
  {
    var s1, e := LoadOf(s, c, image, filled, next), s.At(p, FIRST_USER);
    LoadEntries(s, c, image, filled, next);
    FreshFrames(s, image, filled);
    assert e.base in s.used;
    forall q | q != p && q != c ensures s1.At(q, FIRST_USER) == s.At(q, FIRST_USER) {}
    assert s1.At(c, FIRST_USER).p ==> s1.At(c, FIRST_USER).base in image.Values;
    assert s.At(c, FIRST_USER) == ZERO;
  }

  // Sharing keeps the invariant exactly when the page is not still marked COR.
  lemma ShareKeepsInvIff(s: State, p: Pid, v: VPage, got: Option<Frame>)
    requires Inv(s) && p in s.space && CanReturn(s, got)
    ensures Inv(ShareOf(s, p, v, got)) <==> !s.At(p, v).cor
  {
    var e := s.At(p, v);
    var s' := ShareOf(s, p, v, got);
    if e.p && e.cor {
      assert !GoodEntry(s'.At(p, v), v);
    } else if e.p {
      if !e.shared {
        forall q | q != p && s.At(q, v).p ensures s.At(q, v).base != e.base {
          assert Compatible(s.At(p, v), v, s.At(q, v), v);
        }
        ReflagKeepsInv(s, p, v, e.(shared := true));
      } else {
        assert forall q, w :: s'.At(q, w) == s.At(q, w);
        ShareKeepsPlaced(s, p, v, got);
      }
    } else if IsRequested(e) {
      AllocateKeepsInv(s, p, v, got, true);
      if got.Some? {
        var s1 := Allocate(s, p, v, got, true);
        assert forall q :: q != p ==> s1.At(q, v) == s.At(q, v);
        ReflagKeepsInv(s1, p, v, s1.At(p, v).(shared := true));
      }
    }
  }

  // --- simulation: every step of the kernel is a step of the eager machine ---------

  lemma SharedFrameIsBlock(s: State, p: Pid, v: VPage)
    requires Inv(s) && s.At(p, v).p && s.At(p, v).shared
    ensures s.At(p, v).base in Blocks(s)
  {
  }

  // The shared mappings, and the contents of their frames, are the same.
  lemma SameBlocks(s: State, s': State)
    requires Inv(s) && Inv(s')
    requires forall f :: IsShared(s, f) <==> IsShared(s', f)
    requires forall f :: f in s.used && IsShared(s, f) ==> f in s'.used && s'.mem[f] == s.mem[f]
    ensures Blocks(s') == Blocks(s)
  {
    forall f | IsShared(s', f) ensures f in s.used {
      var p, v :| s.At(p, v).p && s.At(p, v).shared && s.At(p, v).base == f;
    }
  }

  lemma ExitBlocks(s: State, s': State, p: Pid, id: Frame)
    requires Inv(s) && Inv(s') && forall q, w :: s'.At(q, w) == if q == p then ZERO else s.At(q, w)
    ensures id in Blocks(s') <==> id in Blocks(s) && exists q, w :: q != p && IsCommon(Abs(s).At(q, w), id)
  {
    if id in Blocks(s') {
      var q, w :| s'.At(q, w).p && s'.At(q, w).shared && s'.At(q, w).base == id;
      assert q != p && s.At(q, w) == s'.At(q, w);
      SharedFrameIsBlock(s, q, w);
      assert IsCommon(Abs(s).At(q, w), id);
    }
    if id in Blocks(s) && exists q, w :: q != p && IsCommon(Abs(s).At(q, w), id) {
      var q, w :| q != p && IsCommon(Abs(s).At(q, w), id);
      assert s'.At(q, w) == s.At(q, w);
      SharedFrameIsBlock(s', q, w);
    }
  }

  lemma ExitSimulates(s: State, p: Pid)
    requires Inv(s) && p in s.space
    ensures Inv(ExitOf(s, p))
    ensures EagerExit(Abs(s), p, Abs(ExitOf(s, p)))
  {
    ExitKeepsInv(s, p);
    forall id {
      ExitBlocks(s, ExitOf(s, p), p, id);
    }
  }

  // No private page of another mapping lives in the frame that is written.
  lemma OwnedFrameIsNotAliased(s: State, p: Pid, v: VPage, q: Pid, w: VPage)
    requires Inv(s) && s.At(p, v).p && Owns(s, p, v)
    requires s.At(q, w).p && s.At(q, w).base == s.At(p, v).base && (p == q ==> v != w)
    ensures s.At(p, v).shared && s.At(q, w).shared
  {
    assert Compatible(s.At(p, v), v, s.At(q, w), w);
  }

  lemma PokePrivate(s: State, p: Pid, v: VPage, off: nat, b: bv8)
    requires Inv(s) && s.At(p, v).p && off < PAGE_SIZE && Owns(s, p, v) && !s.At(p, v).shared
    requires Inv(Poke(s, p, v, off, b))
    ensures EagerWrite(Abs(s), p, v, off, b, Abs(Poke(s, p, v, off, b)))
  {
    var s', f := Poke(s, p, v, off, b), s.At(p, v).base;
    var a, a' := Abs(s), Abs(s');
    assert forall q, w :: s'.At(q, w) == s.At(q, w);
    forall q, w | !(q == p && w == v) ensures a'.At(q, w) == a.At(q, w) {
      if s.At(q, w).p && s.At(q, w).base == f {
        OwnedFrameIsNotAliased(s, p, v, q, w);
      }
    }
    if IsShared(s, f) {
      var q, w :| s.At(q, w).p && s.At(q, w).shared && s.At(q, w).base == f;
      OwnedFrameIsNotAliased(s, p, v, q, w);
    }
    SameBlocks(s, s');
  }

  lemma SharedFrameHasNoPrivate(s: State, p: Pid, v: VPage)
    requires Inv(s) && s.At(p, v).p && s.At(p, v).shared
    ensures forall q, w :: s.At(q, w).p && s.At(q, w).base == s.At(p, v).base ==> s.At(q, w).shared
  {
    forall q, w | s.At(q, w).p && s.At(q, w).base == s.At(p, v).base ensures s.At(q, w).shared {
      assert (p == q ==> v != w) ==> Compatible(s.At(p, v), v, s.At(q, w), w);
    }
  }

  lemma PokeCommon(s: State, p: Pid, v: VPage, off: nat, b: bv8)
    requires Inv(s) && s.At(p, v).p && off < PAGE_SIZE && s.At(p, v).shared
    requires Inv(Poke(s, p, v, off, b))
    ensures EagerWrite(Abs(s), p, v, off, b, Abs(Poke(s, p, v, off, b)))
  {
    var s', f := Poke(s, p, v, off, b), s.At(p, v).base;
    assert forall q, w :: s'.At(q, w) == s.At(q, w);
    SharedFrameIsBlock(s, p, v);
    SharedFrameHasNoPrivate(s, p, v);
    PokedBlock(s, s', f);
    PokedPages(s, s', f);
  }

  lemma PokedPages(s: State, s': State, f: Frame)
    requires Inv(s) && Inv(s') && s'.space == s.space && s'.next == s.next && s'.mem.Keys == s.mem.Keys
    requires forall g :: g in s.mem && g != f ==> s'.mem[g] == s.mem[g]
    requires forall q, w :: s.At(q, w).p && s.At(q, w).base == f ==> s.At(q, w).shared
    ensures SamePages(Abs(s), Abs(s'))
  {
    assert forall q, w :: s'.At(q, w) == s.At(q, w);
  }

  lemma PokedBlock(s: State, s': State, f: Frame)
    requires Inv(s) && Inv(s') && s'.used == s.used && f in Blocks(s) && s'.mem.Keys == s.mem.Keys
    requires forall g :: g in s.mem && g != f ==> s'.mem[g] == s.mem[g]
    requires forall q, w :: s'.At(q, w) == s.At(q, w)
    ensures Blocks(s') == Blocks(s)[f := s'.mem[f]]
  {
    assert forall g :: IsShared(s', g) <==> IsShared(s, g);
  }

  lemma PokeSimulates(s: State, p: Pid, v: VPage, off: nat, b: bv8)
    requires Inv(s) && s.At(p, v).p && off < PAGE_SIZE && Owns(s, p, v)
    ensures Inv(Poke(s, p, v, off, b))
    ensures EagerWrite(Abs(s), p, v, off, b, Abs(Poke(s, p, v, off, b)))
  {
    PokeKeepsInv(s, p, v, off, b);
    if s.At(p, v).shared {
      PokeCommon(s, p, v, off, b);
    } else {
      PokePrivate(s, p, v, off, b);
    }
  }

  // Writing through this entry disturbs nobody who was promised a copy.
  ghost predicate Owns(s: State, p: Pid, v: VPage) {
    s.At(p, v).rw || forall q :: q != p ==> !(s.At(q, v).p && s.At(q, v).base == s.At(p, v).base)
  }

  // --- the remaining actions, and every run ---------------------------------------------

  // A page gets the fresh frame f, whose contents are `page`.
  lemma NewFrameSimulates(s: State, s': State, p: Pid, v: VPage, f: Frame, us: bool)
    requires Inv(s) && Inv(s') && f !in s.used && !s.At(p, v).shared && f in s'.mem
    requires s'.space.Keys == s.space.Keys && s'.used == s.used + {f}
    requires forall g :: g in s.used ==> g in s'.mem && s'.mem[g] == s.mem[g]
    requires forall q, w :: s'.At(q, w) == if q == p && w == v then Mapped(f, us) else s.At(q, w)
    ensures Abs(s).SameBut(Abs(s'), p, v) && Abs(s').At(p, v) == Private(s'.mem[f], us)
    ensures Abs(s').common == Abs(s).common
  {
    forall g ensures IsShared(s, g) <==> IsShared(s', g) {
      if IsShared(s, g) {
        var q, w :| s.At(q, w).p && s.At(q, w).shared && s.At(q, w).base == g;
        assert s'.At(q, w) == s.At(q, w);
      }
    }
    SameBlocks(s, s');
  }

  // Only the RW and COR flags differ, and no block comes or goes.
  lemma ReflagSimulates(s: State, s': State)
    requires Inv(s) && Inv(s') && s'.mem == s.mem && s'.used == s.used
    requires s'.space.Keys == s.space.Keys
    requires forall q, w :: s'.At(q, w).p == s.At(q, w).p && s'.At(q, w).base == s.At(q, w).base
                         && s'.At(q, w).us == s.At(q, w).us && s'.At(q, w).shared == s.At(q, w).shared
                         && (!s.At(q, w).p ==> s'.At(q, w) == s.At(q, w))
    ensures SamePages(Abs(s), Abs(s')) && Abs(s').common == Abs(s).common
  {
    forall f ensures IsShared(s, f) <==> IsShared(s', f) {
      if IsShared(s, f) {
        var q, w :| s.At(q, w).p && s.At(q, w).shared && s.At(q, w).base == f;
        assert s'.At(q, w).shared;
      }
    }
    SameBlocks(s, s');
  }

  lemma FaultSimulates(s: State, p: Pid, v: VPage, write: bool, got: Option<Frame>)
    requires Inv(s) && Enabled(s, Fault(p, v, write, got))
    ensures Inv(PageFault(s, p, v, got))
    ensures EagerStep(Abs(s), Fault(p, v, write, got), Abs(PageFault(s, p, v, got)))
  {
    var e, s' := s.At(p, v), PageFault(s, p, v, got);
    FaultKeepsInv(s, p, v, got);
    if IsRequested(e) {
      if got.None? {
        ExitSimulates(s, p);
      } else {
        assert forall q, w :: s.(used := s.used + {got.value}).At(q, w) == s.At(q, w);
        NewFrameSimulates(s, s', p, v, got.value, true);
      }
    } else if !IsToBeCopiedOnWrite(e) || (s.HeldElsewhere(p, v) && got.None?) {
      ExitSimulates(s, p);
    } else if s.HeldElsewhere(p, v) {
      var s1 := s.(mem := s.mem[got.value := s.mem[e.base]]);
      assert forall q, w :: s1.(used := s.used + {got.value}).At(q, w) == s.At(q, w);
      NewFrameSimulates(s, s', p, v, got.value, e.us);
    } else {
      ReflagSimulates(s, s');
    }
  }

  lemma PallocSimulates(s: State, p: Pid, ok: bool)
    requires Inv(s) && Enabled(s, Palloc(p, ok))
    ensures Inv(PallocOf(s, p, ok))
    ensures EagerStep(Abs(s), Palloc(p, ok), Abs(PallocOf(s, p, ok)))
  {
    PallocKeepsInv(s, p, ok);
    var v, s' := s.next[p], PallocOf(s, p, ok);
    assert forall q, w :: !(q == p && w == v) ==> s'.At(q, w) == s.At(q, w);
    forall f ensures IsShared(s, f) <==> IsShared(s', f) {
      if IsShared(s, f) {
        var q, w :| s.At(q, w).p && s.At(q, w).shared && s.At(q, w).base == f;
        assert s'.At(q, w) == s.At(q, w);
      }
    }
    SameBlocks(s, s');
  }

  // A private page, alone on its frame, becomes a block.
  lemma MarkSharedSimulates(s: State, p: Pid, v: VPage)
    requires Inv(s) && p in s.space && s.At(p, v).p && !s.At(p, v).shared && s.At(p, v).rw
    requires Inv(s.Put(p, v, s.At(p, v).(shared := true)))
    ensures BecomesCommon(Abs(s), p, v, s.mem[s.At(p, v).base], s.At(p, v).us,
                          Abs(s.Put(p, v, s.At(p, v).(shared := true))))
  {
    var f, s' := s.At(p, v).base, s.Put(p, v, s.At(p, v).(shared := true));
    forall q, w | s.At(q, w).p && s.At(q, w).shared ensures s.At(q, w).base != f {
      assert (p == q ==> v != w) ==> Compatible(s.At(p, v), v, s.At(q, w), w);
    }
    forall g ensures IsShared(s', g) <==> IsShared(s, g) || g == f {
      if IsShared(s, g) {
        var q, w :| s.At(q, w).p && s.At(q, w).shared && s.At(q, w).base == g;
        assert s'.At(q, w) == s.At(q, w);
      }
      assert s'.At(p, v).shared;
    }
    assert Blocks(s') == Blocks(s)[f := s.mem[f]];
  }

  lemma ShareSimulates(s: State, p: Pid, v: VPage, got: Option<Frame>)
    requires Inv(s) && Enabled(s, Share(p, v, got)) && !s.At(p, v).cor
    ensures Inv(ShareOf(s, p, v, got))
    ensures EagerStep(Abs(s), Share(p, v, got), Abs(ShareOf(s, p, v, got)))
  {
    var e, s' := s.At(p, v), ShareOf(s, p, v, got);
    ShareKeepsInvIff(s, p, v, got);
    if e.p && e.shared {
      ReflagSimulates(s, s');
    } else if e.p {
      MarkSharedSimulates(s, p, v);
    } else if IsRequested(e) {
      if got.None? {
        ExitSimulates(s, p);
      } else {
        var s1 := Allocate(s, p, v, got, true);
        AllocateKeepsInv(s, p, v, got, true);
        assert forall q, w :: s.(used := s.used + {got.value}).At(q, w) == s.At(q, w);
        NewFrameSimulates(s, s1, p, v, got.value, true);
        MarkSharedSimulates(s1, p, v);
        assert BecomesCommon(Abs(s), p, v, s.mem[got.value], true, Abs(s'));
      }
    }
  }

  lemma ForkSimulates(s: State, p: Pid, c: Pid, k: Frame, stack: Page)
    requires Inv(s) && Enabled(s, Fork(p, c, k, stack))
    ensures Inv(ForkOf(s, p, c, k, stack))
    ensures EagerFork(Abs(s), p, c, stack, Abs(ForkOf(s, p, c, k, stack)))
  {
    ForkKeepsInv(s, p, c, k, stack);
    ForkEntries(s, p, c, k, stack);
    ForkKeepsBlocks(s, p, c, k, stack);
  }

  // Parent and child share what the parent shared.
  lemma ForkKeepsBlocks(s: State, p: Pid, c: Pid, k: Frame, stack: Page)
    requires Inv(s) && Enabled(s, Fork(p, c, k, stack)) && Inv(ForkOf(s, p, c, k, stack))
    ensures Blocks(ForkOf(s, p, c, k, stack)) == Blocks(s)
  {
    var s' := ForkOf(s, p, c, k, stack);
    ForkEntries(s, p, c, k, stack);
    forall f ensures IsShared(s, f) <==> IsShared(s', f) {
      if IsShared(s, f) {
        var q, w :| s.At(q, w).p && s.At(q, w).shared && s.At(q, w).base == f;
        assert s'.At(q, w).shared;
      }
      if IsShared(s', f) {
        var q, w :| s'.At(q, w).p && s'.At(q, w).shared && s'.At(q, w).base == f;
        assert s.At(if q == c then p else q, w).shared;
      }
    }
    SameBlocks(s, s');
  }

  lemma LoadSimulates(s: State, c: Pid, image: map<VPage, Frame>, filled: map<Frame, Page>, next: VPage)
    requires Inv(s) && c !in s.space && FreshImage(s, image, filled)
    ensures Inv(LoadOf(s, c, image, filled, next))
    ensures EagerLoad(Abs(s), c, image, filled, next, Abs(LoadOf(s, c, image, filled, next)))
  {
    var s' := LoadOf(s, c, image, filled, next);
    LoadKeepsInv(s, c, image, filled, next);
    LoadKeepsBlocks(s, c, image, filled, next);
    forall q, v ensures LoadedPage(Abs(s), Abs(s'), c, image, filled, q, v) {
      LoadedPageSeen(s, c, image, filled, next, q, v);
    }
  }

  lemma LoadedPageSeen(s: State, c: Pid, image: map<VPage, Frame>, filled: map<Frame, Page>, next: VPage, q: Pid, v: VPage)
    requires Inv(s) && c !in s.space && FreshImage(s, image, filled) && Inv(LoadOf(s, c, image, filled, next))
    ensures LoadedPage(Abs(s), Abs(LoadOf(s, c, image, filled, next)), c, image, filled, q, v)
  {
    LoadEntries(s, c, image, filled, next);
    FreshFrames(s, image, filled);
    if s.At(q, v).p {
      assert s.At(q, v).base !in filled;
    }
  }

  lemma LoadKeepsBlocks(s: State, c: Pid, image: map<VPage, Frame>, filled: map<Frame, Page>, next: VPage)
    requires Inv(s) && c !in s.space && FreshImage(s, image, filled) && Inv(LoadOf(s, c, image, filled, next))
    ensures Blocks(LoadOf(s, c, image, filled, next)) == Blocks(s)
  {
    LoadEntries(s, c, image, filled, next);
    FreshFrames(s, image, filled);
    LoadedBlocks(s, LoadOf(s, c, image, filled, next), c);
  }

  // A new process brings no shared page, and disturbs no frame in use.
  lemma LoadedBlocks(s: State, s': State, c: Pid)
    requires Inv(s) && Inv(s') && s.used <= s'.used && forall f :: f in s.used ==> f in s'.mem && s'.mem[f] == s.mem[f]
    requires c !in s.space && forall q, v :: q != c ==> s'.At(q, v) == s.At(q, v)
    requires forall v :: !s'.At(c, v).shared
    ensures Blocks(s') == Blocks(s)
  {
    forall f ensures IsShared(s, f) <==> IsShared(s', f) {
      if IsShared(s, f) {
        var q, w :| s.At(q, w).p && s.At(q, w).shared && s.At(q, w).base == f;
        assert s'.At(q, w) == s.At(q, w);
      }
    }
    SameBlocks(s, s');
  }

  lemma RestoreSimulates(s: State, p: Pid)
    requires Inv(s) && p in s.space && s.At(p, FIRST_USER).p && SoleOwner(s, p, FIRST_USER)
    ensures Inv(RestoreOf(s, p)) && EagerRestore(Abs(s), p, Abs(RestoreOf(s, p)))
  {
    RestoreKeepsInvIff(s, p);
    RestoredBlocks(s, p);
    if s.At(p, FIRST_USER).shared {
      SharedFrameIsBlock(s, p, FIRST_USER);
    }
  }

  // A page that only p has shared is shared no more.
  lemma RestoredBlocks(s: State, p: Pid)
    requires Inv(s) && p in s.space && s.At(p, FIRST_USER).p && SoleOwner(s, p, FIRST_USER) && Inv(RestoreOf(s, p))
    ensures Blocks(RestoreOf(s, p)) == if s.At(p, FIRST_USER).shared then Blocks(s) - {s.At(p, FIRST_USER).base} else Blocks(s)
  {
    var s', f := RestoreOf(s, p), s.At(p, FIRST_USER).base;
    forall q, w | !(q == p && w == FIRST_USER) && s.At(q, w).p ensures s.At(q, w).base != f {
      assert SamePlace(s.At(p, FIRST_USER), FIRST_USER, s.At(q, w), w);
    }
    forall g ensures IsShared(s', g) <==> IsShared(s, g) && !(g == f && s.At(p, FIRST_USER).shared) {
      if IsShared(s, g) && !(g == f && s.At(p, FIRST_USER).shared) {
        var q, w :| s.At(q, w).p && s.At(q, w).shared && s.At(q, w).base == g;
        assert s'.At(q, w) == s.At(q, w);
      }
      if IsShared(s', g) {
        var q, w :| s'.At(q, w).p && s'.At(q, w).shared && s'.At(q, w).base == g;
        assert s'.At(q, w) == s.At(q, w);
      }
    }
  }

  lemma LoadBySimulates(s: State, p: Pid, c: Pid, image: map<VPage, Frame>, filled: map<Frame, Page>, next: VPage)
    requires Inv(s) && Enabled(s, LoadBy(p, c, image, filled, next)) && SoleOwner(s, p, FIRST_USER)
    ensures Inv(Next(s, LoadBy(p, c, image, filled, next)))
    ensures EagerStep(Abs(s), LoadBy(p, c, image, filled, next), Abs(Next(s, LoadBy(p, c, image, filled, next))))
  {
    var s1 := LoadOf(s, c, image, filled, next);
    LoadKeepsOwner(s, p, c, image, filled, next);
    LoadSimulates(s, c, image, filled, next);
    RestoreSimulates(s1, p);
    assert EagerLoad(Abs(s), c, image, filled, next, Abs(s1)) && EagerRestore(Abs(s1), p, Abs(RestoreOf(s1, p)));
  }

  // The calls whose result the code does not protect; see KernelWriteSimulatesIff,
  // SharedAfterForkIff and LoadByKeepsInvIff for why this is exact.
  ghost predicate Careful(s: State, a: Action) {
    match a
    case KernelWrite(p, v, off, b) => Owns(s, p, v)
    case Share(p, v, got) => !s.At(p, v).cor
    case LoadBy(p, c, image, filled, next) => SoleOwner(s, p, FIRST_USER)
    case _ => true
  }

  lemma StepSimulates(s: State, a: Action)
    requires Inv(s) && Enabled(s, a) && Careful(s, a)
    ensures Inv(Next(s, a)) && EagerStep(Abs(s), a, Abs(Next(s, a)))
  {
    match a
    case Read(p, v, off) =>
    case Write(p, v, off, b) => PokeSimulates(s, p, v, off, b);
    case KernelWrite(p, v, off, b) => PokeSimulates(s, p, v, off, b);
    case Fault(p, v, write, got) => FaultSimulates(s, p, v, write, got);
    case Palloc(p, ok) => PallocSimulates(s, p, ok);
    case Share(p, v, got) => ShareSimulates(s, p, v, got);
    case Fork(p, c, k, stack) => ForkSimulates(s, p, c, k, stack);
    case Load(p, c, image, filled, next) => LoadSimulates(s, c, image, filled, next);
    case LoadBy(p, c, image, filled, next) => LoadBySimulates(s, p, c, image, filled, next);
    case Exit(p) => ExitSimulates(s, p);
  }

  // What loader_load leaves behind: every mapping is private and writable.
  ghost predicate Initial(s: State) {
    && s.used <= s.mem.Keys
    && (forall p, v :: s.At(p, v) == ZERO || s.At(p, v) == REQUESTED
                    || (s.At(p, v).base in s.used && s.At(p, v) == Mapped(s.At(p, v).base, v != KSTACK)))
    && (forall p, v, q, w {:trigger Compatible(s.At(p, v), v, s.At(q, w), w)} ::
          (p == q ==> v != w) && s.At(p, v).p && s.At(q, w).p ==> s.At(p, v).base != s.At(q, w).base)
  }

  lemma InitialHasInv(s: State)
    requires Initial(s)
    ensures Inv(s)
  {
    forall p, v, q, w ensures SamePlace(s.At(p, v), v, s.At(q, w), w) {
      assert (p == q ==> v != w) ==> Compatible(s.At(p, v), v, s.At(q, w), w) || s.At(p, v).base != s.At(q, w).base;
    }
  }

  ghost predicate StepAt(ss: seq<State>, acts: seq<Action>, i: nat)
    requires i < |acts| && i + 1 < |ss|
  {
    Enabled(ss[i], acts[i]) && ss[i + 1] == Next(ss[i], acts[i])
  }

  // Every run of the kernel, whatever is called.
  ghost predicate Run(ss: seq<State>, acts: seq<Action>) {
    && |ss| == |acts| + 1 && Initial(ss[0])
    && forall i {:trigger StepAt(ss, acts, i)} :: 0 <= i < |acts| ==> StepAt(ss, acts, i)
  }

  ghost predicate RunTo(ss: seq<State>, acts: seq<Action>, s: State) {
    Run(ss, acts) && ss[|acts|] == s
  }

  lemma RunOn(ss: seq<State>, acts: seq<Action>, s: State, a: Action)
    requires RunTo(ss, acts, s) && Enabled(s, a)
    ensures RunTo(ss + [Next(s, a)], acts + [a], Next(s, a))
  {
    var ss', acts' := ss + [Next(s, a)], acts + [a];
    forall i | 0 <= i < |acts'| ensures StepAt(ss', acts', i) {
      if i < |acts| {
        assert StepAt(ss, acts, i);
      }
    }
  }

  // share_page is not called on a page that is still marked COR, and no program
  // is loaded by a process whose first page another process has.
  ghost predicate KeepsOwners(s: State, a: Action) {
    && (a.Share? ==> !s.At(a.p, a.v).cor)
    && (a.LoadBy? ==> SoleOwner(s, a.p, FIRST_USER))
  }

  lemma {:induction false} RunKeepsPlaced(ss: seq<State>, acts: seq<Action>, n: nat)
    requires Run(ss, acts) && n <= |acts|
    ensures Placed(ss[n])
  {
    if n == 0 {
      InitialHasInv(ss[0]);
    } else {
      RunKeepsPlaced(ss, acts, n - 1);
      assert StepAt(ss, acts, n - 1);
      StepKeepsPlaced(ss[n - 1], acts[n - 1]);
    }
  }

  /** In every reachable state, whatever was called before: a frame is mapped at
      one address only and is allocated, so the allocator never hands out a frame
      that is mapped; and no teardown releases a frame that another process maps. */
  lemma FramesStayInPlace(ss: seq<State>, acts: seq<Action>, p: Pid, v: VPage, q: Pid, w: VPage)
    requires Run(ss, acts)
    ensures var s := ss[|acts|];
            && (s.At(p, v).p && s.At(q, w).p && s.At(p, v).base == s.At(q, w).base ==> v == w)
            && (s.At(p, v).p ==> s.At(p, v).base in s.used && !CanReturn(s, Some(s.At(p, v).base)))
            && (s.At(q, w).p && q != p ==> s.At(q, w).base !in Freed(s, p))
  {
    RunKeepsPlaced(ss, acts, |acts|);
    var s := ss[|acts|];
    assert SamePlace(s.At(p, v), v, s.At(q, w), w);
    if s.At(q, w).p && q != p {
      NotFreed(s, p, q, w);
    }
  }

  // Kernel stores to pages marked COR included.
  lemma StepKeepsInv(s: State, a: Action)
    requires Inv(s) && Enabled(s, a) && KeepsOwners(s, a)
    ensures Inv(Next(s, a))
  {
    if a.KernelWrite? {
      PokeKeepsInv(s, a.p, a.v, a.off, a.b);
    } else {
      StepSimulates(s, a);
    }
  }

  lemma {:induction false} RunKeepsInv(ss: seq<State>, acts: seq<Action>, n: nat)
    requires Run(ss, acts) && n <= |acts| && forall i :: 0 <= i < n ==> KeepsOwners(ss[i], acts[i])
    ensures Inv(ss[n])
  {
    if n == 0 {
      InitialHasInv(ss[0]);
    } else {
      RunKeepsInv(ss, acts, n - 1);
      assert StepAt(ss, acts, n - 1);
      StepKeepsInv(ss[n - 1], acts[n - 1]);
    }
  }

  /** While share_page is used as meant, two processes that map one frame both
      share it, or neither can write to it; the kernel may store where it likes. */
  lemma FramesAreOwned(ss: seq<State>, acts: seq<Action>, p: Pid, v: VPage, q: Pid, w: VPage)
    requires Run(ss, acts) && forall i :: 0 <= i < |acts| ==> KeepsOwners(ss[i], acts[i])
    requires var s := ss[|acts|]; p != q && s.At(p, v).p && s.At(q, w).p && s.At(p, v).base == s.At(q, w).base
    ensures v == w
    ensures var s := ss[|acts|]; (s.At(p, v).shared && s.At(q, w).shared) || (!s.At(p, v).rw && !s.At(q, w).rw)
  {
    RunKeepsInv(ss, acts, |acts|);
    var s := ss[|acts|];
    assert Compatible(s.At(p, v), v, s.At(q, w), w);
  }

  /** The main result: along every run in which every step is careful, whatever
      the interleaving, the kernel's memory steps as the machine in which fork
      copies everything at once, and every process reads in the one what it
      would read in the other. */
  lemma LazyForkSimulatesEagerFork(ss: seq<State>, acts: seq<Action>)
    requires Run(ss, acts) && forall i :: 0 <= i < |acts| ==> Careful(ss[i], acts[i])
    ensures forall i :: 0 <= i <= |acts| ==> Inv(ss[i])
    ensures forall i :: 0 <= i < |acts| ==> EagerStep(Abs(ss[i]), acts[i], Abs(ss[i + 1]))
    ensures forall i, p, v, off: nat :: 0 <= i <= |acts| && off < PAGE_SIZE ==>
              Fetch(ss[i], p, v, off) == Sees(Abs(ss[i]), p, v, off)
  {
    forall i | 0 <= i <= |acts| ensures Inv(ss[i]) {
      RunKeepsInv(ss, acts, i);
    }
    forall i | 0 <= i < |acts| ensures EagerStep(Abs(ss[i]), acts[i], Abs(ss[i + 1])) {
      assert StepAt(ss, acts, i);
      StepSimulates(ss[i], acts[i]);
    }
    forall i, p, v, off: nat | 0 <= i <= |acts| && off < PAGE_SIZE
      ensures Fetch(ss[i], p, v, off) == Sees(Abs(ss[i]), p, v, off)
    {
      FetchIsSeen(ss[i], p, v, off);
    }
  }

  // --- where the code departs from the promise, exactly -------------------------------------

  /** The processor ignores RW in ring 0 (CR0.WP is never set), so a system call
      that stores through a user pointer writes a page still marked COR in place.
      That agrees with eager copying exactly when the entry is writable or no
      other process maps its frame. */
  lemma KernelWriteSimulatesIff(s: State, p: Pid, v: VPage, off: nat)
    requires Inv(s) && s.At(p, v).p && off < PAGE_SIZE
    ensures forall b :: Inv(Poke(s, p, v, off, b))
    ensures (forall b :: EagerWrite(Abs(s), p, v, off, b, Abs(Poke(s, p, v, off, b)))) <==> Owns(s, p, v)
  {
    forall b ensures Inv(Poke(s, p, v, off, b)) {
      PokeKeepsInv(s, p, v, off, b);
    }
    if Owns(s, p, v) {
      forall b {
        PokeSimulates(s, p, v, off, b);
      }
    } else {
      var q :| q != p && s.At(q, v).p && s.At(q, v).base == s.At(p, v).base;
      assert Compatible(s.At(p, v), v, s.At(q, v), v);
      var b := s.mem[s.At(p, v).base][off] + 1;
      var s' := Poke(s, p, v, off, b);
      assert s'.At(q, v) == s.At(q, v);
      assert s'.mem[s.At(q, v).base][off] != s.mem[s.At(q, v).base][off];
      assert !EagerWrite(Abs(s), p, v, off, b, Abs(s'));
    }
  }

  // p shares v, forks c and stores b into v, taking the fault if there is one.
  ghost function ShareForkStore(s: State, p: Pid, v: VPage, c: Pid, k: Frame, stack: Page, f: Frame, off: nat, b: bv8): State
    requires p in s.space && p in s.next && s.At(p, v).base in s.mem && f in s.mem && off < PAGE_SIZE
    requires s.At(p, v).p && s.At(p, v).us && v != KSTACK && c !in s.space
  {
    var s1 := ShareOf(s, p, v, None);
    var s2 := ForkOf(s1, p, c, k, stack);
    ForkEntries(s1, p, c, k, stack);
    assert s2.HeldElsewhere(p, v) by { assert s2.At(c, v).p; }
    var s3 := if Allowed(s2.At(p, v), true) then s2 else PageFault(s2, p, v, Some(f));
    Poke(s3, p, v, off, b)
  }

  /** share_page on a page still marked COR does not share it: the parent's next
      store takes the copy-on-write path. The child sees what the parent
      stores exactly when the page was not marked COR. */
  lemma SharedAfterForkIff(s: State, p: Pid, v: VPage, c: Pid, k: Frame, stack: Page, f: Frame, off: nat)
    requires Inv(s) && p in s.space && p in s.next && s.At(p, v).p && s.At(p, v).us && v != KSTACK && c !in s.space
    requires CanReturn(s, Some(k)) && CanReturn(s, Some(f)) && f != k && off < PAGE_SIZE
    ensures (forall b :: Fetch(ShareForkStore(s, p, v, c, k, stack, f, off, b), c, v, off) == Some(b)) <==> !s.At(p, v).cor
  {
    var e := s.At(p, v);
    var s1 := ShareOf(s, p, v, None);
    ForkEntries(s1, p, c, k, stack);
    if e.cor {
      var b := s.mem[e.base][off] + 1;
      var s2 := ForkOf(s1, p, c, k, stack);
      assert s2.At(p, v) == e.(shared := true) && s2.At(c, v).p;
      assert s2.HeldElsewhere(p, v);
      var s3 := PageFault(s2, p, v, Some(f));
      assert s3.At(p, v).base == f && s3.At(c, v) == s2.At(c, v);
      assert s3.mem[e.base] == s.mem[e.base];
      assert Fetch(ShareForkStore(s, p, v, c, k, stack, f, off, b), c, v, off) == Some(s.mem[e.base][off]);
    }
  }

  // p shares v, forks c, and c stores b into v.
  ghost function ChildStore(s: State, p: Pid, v: VPage, c: Pid, k: Frame, stack: Page, off: nat, b: bv8): State
    requires p in s.space && p in s.next && s.At(p, v).base in s.mem && off < PAGE_SIZE
    requires s.At(p, v).p && v != KSTACK && c !in s.space
  {
    var s2 := ForkOf(ShareOf(s, p, v, None), p, c, k, stack);
    ForkEntries(ShareOf(s, p, v, None), p, c, k, stack);
    Poke(s2, c, v, off, b)
  }

  ghost predicate KeepsPrivatePages(s: State, s': State, p: Pid, v: VPage, off: nat)
    requires off < PAGE_SIZE
  {
    forall q :: q != p && s.At(q, v).p && !s.At(q, v).shared ==> Fetch(s', q, v, off) == Fetch(s, q, v, off)
  }

  /** Worse, the child gets the marked frame writable: its stores change the
      private pages of third processes, exactly when somebody else still has the
      frame of a page that was not shared before. */
  lemma ChildStoreKeepsOthersIff(s: State, p: Pid, v: VPage, c: Pid, k: Frame, stack: Page, off: nat)
    requires Inv(s) && p in s.space && p in s.next && s.At(p, v).p && s.At(p, v).us && v != KSTACK && c !in s.space
    requires CanReturn(s, Some(k)) && off < PAGE_SIZE
    ensures Allowed(ForkOf(ShareOf(s, p, v, None), p, c, k, stack).At(c, v), true)
    ensures (forall b :: KeepsPrivatePages(s, ChildStore(s, p, v, c, k, stack, off, b), p, v, off))
            <==> s.At(p, v).shared || SoleOwner(s, p, v)
  {
    var f, s1 := s.At(p, v).base, ShareOf(s, p, v, None);
    ForkEntries(s1, p, c, k, stack);
    forall b, q | q != p && s.At(q, v).p
      ensures Fetch(ChildStore(s, p, v, c, k, stack, off, b), q, v, off) ==
                if s.At(q, v).base == f then Some(b) else Fetch(s, q, v, off)
    {
      ChildStoreSeen(s, p, v, c, k, stack, off, b, q);
    }
    if !s.At(p, v).shared && !SoleOwner(s, p, v) {
      var q :| q != p && s.At(q, v).p && s.At(q, v).base == f;
      assert Compatible(s.At(p, v), v, s.At(q, v), v);
      var b := s.mem[f][off] + 1;
      assert !KeepsPrivatePages(s, ChildStore(s, p, v, c, k, stack, off, b), p, v, off);
    } else {
      forall b ensures KeepsPrivatePages(s, ChildStore(s, p, v, c, k, stack, off, b), p, v, off) {
        forall q | q != p && s.At(q, v).p && !s.At(q, v).shared ensures s.At(q, v).base != f {
          assert Compatible(s.At(p, v), v, s.At(q, v), v);
        }
      }
    }
  }

  lemma ChildStoreSeen(s: State, p: Pid, v: VPage, c: Pid, k: Frame, stack: Page, off: nat, b: bv8, q: Pid)
    requires Placed(s) && p in s.space && p in s.next && s.At(p, v).p && v != KSTACK && c !in s.space
    requires CanReturn(s, Some(k)) && off < PAGE_SIZE && q != p && s.At(q, v).p
    ensures Fetch(ChildStore(s, p, v, c, k, stack, off, b), q, v, off) ==
              if s.At(q, v).base == s.At(p, v).base then Some(b) else Fetch(s, q, v, off)
  {
    var s1 := ShareOf(s, p, v, None);
    var s2 := ForkOf(s1, p, c, k, stack);
    ForkEntries(s1, p, c, k, stack);
    var s3 := Poke(s2, c, v, off, b);
    assert s3.At(q, v) == s2.At(q, v) == s.At(q, v);
  }

  ghost predicate Orphan(s: State, f: Frame) {
    f in s.used && forall p, v :: s.At(p, v).p ==> s.At(p, v).base != f
  }

  // Another process has something at that address, whatever frame it is.
  ghost predicate MappedByOthers(s: State, p: Pid, v: VPage) {
    exists q :: q != p && s.At(q, v).p
  }

  // In every reachable state the tests of the code ask just that.
  lemma HeldIsMapped(s: State, p: Pid, v: VPage)
    requires Placed(s)
    ensures s.HeldElsewhere(p, v) <==> MappedByOthers(s, p, v)
    ensures s.SharedElsewhere(p, v) ==> MappedByOthers(s, p, v)
  {
    assert forall q :: SoundEntry(s.At(q, v), v);
  }

  lemma MappedOnlyAt(s: State, p: Pid, v: VPage)
    requires Placed(s) && s.At(p, v).p
    ensures forall q, w :: s.At(q, w).p && s.At(q, w).base == s.At(p, v).base ==> w == v
  {
    forall q, w | s.At(q, w).p && s.At(q, w).base == s.At(p, v).base ensures w == v {
      assert SamePlace(s.At(p, v), v, s.At(q, w), w);
    }
  }

  /** Teardown gives a frame of the process back exactly when no other process
      has anything at its address; all other frames stay as they are. */
  lemma TeardownReleasesIff(s: State, p: Pid, v: VPage)
    requires Placed(s) && p in s.space && s.At(p, v).p
    ensures s.At(p, v).base !in ExitOf(s, p).used <==> forall q :: q != p ==> !s.At(q, v).p
    ensures ExitOf(s, p).used <= s.used && ExitOf(s, p).mem == s.mem
    ensures forall f :: f in s.used && (forall w :: s.At(p, w).p ==> s.At(p, w).base != f) ==> f in ExitOf(s, p).used
  {
    var f := s.At(p, v).base;
    HeldIsMapped(s, p, v);
    MappedOnlyAt(s, p, v);
    assert f in Freed(s, p) <==> ReleasedAt(s, p, v);
  }

  /** A store to a page to be copied on write: if another process has anything at
      that address, the page gets the new frame with the old contents; if none
      has, it keeps its frame, nothing is copied and no frame is taken. */
  lemma FaultCopiesIff(s: State, p: Pid, v: VPage, f: Frame)
    requires Placed(s) && p in s.space && CanReturn(s, Some(f)) && s.At(p, v).p && IsToBeCopiedOnWrite(s.At(p, v))
    ensures var s', e := PageFault(s, p, v, Some(f)), s.At(p, v);
            && s'.At(p, v).rw && !s'.At(p, v).cor
            && if forall q :: q != p ==> !s.At(q, v).p then s'.At(p, v).base == e.base && s'.used == s.used && s'.mem == s.mem
               else s'.At(p, v).base == f && s'.used == s.used + {f} && s'.mem == s.mem[f := s.mem[e.base]]
  {
    HeldIsMapped(s, p, v);
  }

  /** The test for other owners looks at the address only, not at the frame. So
      the last owner of a frame copies it, and the old frame is lost, exactly
      when another process has anything at that address. */
  lemma LastOwnerLeaksIff(s: State, p: Pid, v: VPage, f: Frame)
    requires Placed(s) && p in s.space && CanReturn(s, Some(f)) && s.At(p, v).p && IsToBeCopiedOnWrite(s.At(p, v))
    ensures Orphan(PageFault(s, p, v, Some(f)), s.At(p, v).base) <==> SoleOwner(s, p, v) && exists q :: q != p && s.At(q, v).p
  {
    var e, s' := s.At(p, v), PageFault(s, p, v, Some(f));
    MappedOnlyAt(s, p, v);
    HeldIsMapped(s, p, v);
    if s.HeldElsewhere(p, v) {
      var s1 := s.(mem := s.mem[f := s.mem[e.base]]);
      assert forall q, w :: s1.(used := s.used + {f}).At(q, w) == s.At(q, w);
      assert forall q, w :: s'.At(q, w) == if q == p && w == v then Mapped(f, e.us) else s.At(q, w);
      if !SoleOwner(s, p, v) {
        var q :| q != p && s.At(q, v).p && s.At(q, v).base == e.base;
        assert s'.At(q, v) == s.At(q, v);
      }
    } else {
      assert s'.At(p, v).base == e.base;
    }
  }

  // Teardown loses a frame under the same condition.
  lemma TeardownLeaksIff(s: State, p: Pid, v: VPage)
    requires Placed(s) && p in s.space && s.At(p, v).p
    ensures Orphan(ExitOf(s, p), s.At(p, v).base) <==> SoleOwner(s, p, v) && exists q :: q != p && s.At(q, v).p
  {
    var f, s' := s.At(p, v).base, ExitOf(s, p);
    ExitKeepsPlaced(s, p);
    MappedOnlyAt(s, p, v);
    HeldIsMapped(s, p, v);
    if f in Freed(s, p) {
      var w :| w in s.space[p] && ReleasedAt(s, p, w) && s.At(p, w).base == f;
      assert w == v;
    } else {
      assert !ReleasedAt(s, p, v);
      if SoleOwner(s, p, v) {
        assert forall q, w :: s'.At(q, w).p ==> s'.At(q, w).base != f;
      } else {
        var q :| q != p && s.At(q, v).p && s.At(q, v).base == f;
        assert s'.At(q, v) == s.At(q, v);
      }
    }
  }
}
