# spuriOS, verified

A Dafny model of the kernel of spuriOS, a small 32-bit teaching system, and of
three of its tasks, with proofs of what they keep. Interrupt gates mask
interrupts, so kernel code runs undisturbed from one blocking point to the
next; where code is preemptible (user tasks) the steps are single accesses.

- **Memory.** `FrameBitmap` is the frame allocator, bit for bit; `PageTables`
  the two-level tables in its frames; `MemoryManager` the process side: page
  faults, sharing, palloc, fork, teardown; `ProgramLoader` loads a program. All
  of it is proved against one flat state machine, `CopyOnWrite`, whose main
  theorem is that fork by marking pages cannot be told from fork by copying
  them. `MemorySession` keeps the run of that machine beside the tables, so the
  theorems hold of any sequence of calls of the kernel itself.
  `CopyOnWriteRuns` has runs in which calls outside the main theorem go wrong,
  `FrameLosses` says of every run which frames are lost.
  `Paging` is the layout of an entry.
- **Processes.** `Scheduler` is the run ring as it is linked through an array,
  `RunRing` the ring as a value, with bounded waiting. `Loader` has the PCBs, the
  wait queues and the sleepers; each operation is one event of `Lifecycle`, whose
  reachable states keep every process in exactly one place. `WakeOrder` says who
  waits where, who is woken when, and who runs next. `WaitQueues` are the links.
- **Pipes.** `Pipe` is the ring with its two endpoints, `PipeStreams` every run
  of it, `PipeSlots` the choice of endpoints. `Descriptors` is the reference
  counting over the descriptor matrix.
- **Files.** `BlockDevice` reads any bytes from sectors, `Ext2Blocks` finds the
  blocks of a file, `Ext2File` reads and seeks through a cache of one page,
  `Ext2Session` is every sequence of such calls, `Ext2Holes` says when what they
  find is the file as ext2 defines it, `Ext2Path` walks directories with the
  functions of `Strings`. `Ext2Layout` is the other direction: numbers, inodes,
  directories and files written to a device as ext2 lays them out are what is read.
- **Tasks and library.** `Memkrypt` is the three-process pipeline over shared
  pages, `XorStream` its cipher and that of krypt and unkrypt, `Format` prints
  numbers, `KernelSemaphore` is the hand-off semaphore. `Common` and `Memory`
  hold what all of them use.

The sizes are parameters wherever the source has macros: the number of
processes, descriptors, endpoints and frames, the capacity of a pipe, the pages
of memkrypt and the size of a sector. The page size (4096), the block size
(1024), the quantum (10) and the layout of entries, inodes and directories are
those of the source.

## What does not hold, and exactly when

The code as it is does not keep some of what it promises. Each of these has a
lemma that says for which calls it does, and one at a concrete input or run where
it does not.

- Pipes never advance the user's pointer (kernel/pipe.c:108-114, 144-150):
  `SentIff`, `ReceivedIff`, `WriteIsRightIff`; `WrapRepeatsBytes`,
  `ResumedWriteRepeatsBytes`. Occupancy, positions, waiting and wake-ups are
  right; contents are a queue if the offset is added (`AdvancingPipeIsFifo`).
- `pipe_open` takes a closed endpoint whose peer is still open:
  `JoinKeepsPairingIff`; `ReuseBreaksPairing`.
- `close` accepts MAX_FD, which is another process's descriptor:
  `CloseStaysInRowIff`; `TwoProcesses` and `CloseReachesNeighbour`.
- A seek right after a read that ended on a page boundary may find the wrong page
  loaded: `SeekKeepsSyncedIff`, `SyncedUntilStale`, `ReadIsRightIff`; `StaleSeek`, `StaleBytes`. The
  size of a read wraps: `ClippedIff`; `WrappedSize`. A seek to the end of the file
  may index past its list: `EndIsPastListIff`.
- A block pointer of 0 is a hole, which reads as zeros in ext2; the code follows it
  to the boot block: `FoundIsFileIff`, `LoadIsFileIff`, `ReadIsFileIff`,
  `AnswerIsFileIff`, `RawIsFileIff`; `SparseFile`.
- Directory entries whose inode is 0 are unused, but the lookup takes them and so
  misses a file of that name behind: `FirstNamedIff`, `WalkIsFollowIff`;
  `HiddenFile`.
- The last owner of a copied page does not simply write to it, as
  doc/tp3-docs.md says, but copies it and loses a frame while another process has
  anything at that address: `LastOwnerLeaksIff`, `TeardownLeaksIff`, and over all
  calls and runs `StepLosesIff`, `LostFrames`; `LastOwnerLeaks`, `TeardownLeaks`.
- `share_page` on a page still marked for copying does not share it, and after a
  fork the child may write to pages of others: `SharedAfterForkIff`,
  `ShareKeepsInvIff`, `ChildStoreKeepsOthersIff`; `SharedPageIsNotShared`,
  `ChildStoreChangesPrivatePage`. Stores by the kernel to such a page bypass the
  copy, since write protection is not switched on for ring 0:
  `KernelWriteSimulatesIff`; `KernelStoreIsSeenByChild`.
- A process that loads a program gets its first page back without its marks:
  `LoadByKeepsInvIff`; `LoadingParentWritesToChild`.
- There is no bound on waiting that does not count the processes made ready
  meanwhile: `BoundedWaiting`; `TwoStarveAThird`, in the ring and from the start of
  the system.
- The memory map may name regions that do not start on a page boundary; then a
  frame may be left out: `RegionIsSetAsideIff`; `HalfRegion`. It may also have gaps,
  and then frames that are no memory may be free: `FreeIsMemoryIff`,
  `GapFrameIsFree`; `GapIsFree`.
- `put_dec` cannot print the least int; `put_uhex` answers too small a number for
  small arguments: `PutDec`, `PutUhex`; `LeastNumber`.

## Model

| member | source | states |
|---|---|---|
| `Paging.MaskTestsAreFieldTests` | kernel/mm.c:397-425 | the bit-mask tests of the source on an entry word (requested, copied on write, the test with `~MM_ATTR_RW`) agree with tests on the fields of an entry, for every entry |
| `FrameBitmap.CountByte` | kernel/mm.c:72-80 | shifting the complement of a byte counts exactly its zero bits |
| `FrameBitmap.Bitmap.ZonesPartition` | kernel/mm.c:154-163 | every frame the bitmap covers is allocated or free in exactly one zone; the zones do not overlap |
| `FrameBitmap.Bitmap.constructor` | kernel/mm.c:365-366 | the bitmap starts clear: no frame is allocated |
| `FrameBitmap.Bitmap.SetBits` | kernel/mm.c:332-334 | the loop allocates exactly the n frames from that position on |
| `FrameBitmap.Bitmap.ReserveBitmapPages` | kernel/mm.c:330-339 | exactly the frames that the bitmap itself takes become allocated |
| `FrameBitmap.Bitmap.MarkUsed` | kernel/mm.c:341-359 | exactly the frames counted for the unavailable regions become allocated |
| `FrameBitmap.RegionIsSetAsideIff` | kernel/mm.c:348-351 | these are all the frames with a byte of the region if and only if the region, moved to the start of its first page, takes no fewer pages |
| `FrameBitmap.HalfRegion` | kernel/mm.c:348-351 | a region of one page that starts in the middle of a frame: its second frame stays free |
| `FrameBitmap.LastValidEntry` | kernel/mm.c:305-318 | the entries looked at are those up to the last one with available memory above 1 MB |
| `FrameBitmap.MemLength` | kernel/mm.c:320-329 | the bitmap is made for the sum of the lengths of the entries above 1 MB |
| `FrameBitmap.SetUpBitmap` | kernel/mm.c:361-370 | after start-up exactly the frames of the bitmap itself and those marked for the unavailable entries are allocated |
| `FrameBitmap.FreeIsMemoryIff` | kernel/mm.c:319-359 | every frame that is free then is available memory if and only if every frame the bitmap covers, but for its own, is in some entry |
| `FrameBitmap.ContiguousFreeIsMemory` | kernel/mm.c:319-359 | so it is for every map whose entries follow each other from 1 MB on |
| `FrameBitmap.GapFrameIsFree` | kernel/mm.c:319-359 | and the first frame of a gap is free although no entry has it, whenever the bitmap reaches that far and is not itself there |
| `FrameBitmap.GapIsFree` | kernel/mm.c:319-359 | memory from 1 to 4 MB and from 16 to 20 MB: the frame at 4 MB is free, and nothing is there |
| `FrameBitmap.Bitmap.SetBit` | kernel/mm.c:255-264 | exactly the frame at that position becomes allocated (bits count from the most significant) |
| `FrameBitmap.Bitmap.ClearBit` | kernel/mm.c:266-275 | exactly the frame at that position becomes free |
| `FrameBitmap.Bitmap.FrameIsBit` | kernel/mm.c:244-275 | the frames from 1 MB on are the bits of the bytes in order, eight to a byte, the first of them in the most significant bit |
| `FrameBitmap.Bitmap.FirstNotFull` | kernel/mm.c:165-173 | the byte search stops at the first byte with a free frame; all frames before it in the zone are allocated |
| `FrameBitmap.Bitmap.Take` | kernel/mm.c:175-183 | the frame it is given becomes allocated and no other; that it is the lowest free one of the byte is stated by Seek |
| `FrameBitmap.Bitmap.Seek` | kernel/mm.c:151-189 | first fit: the answer is the lowest free frame of the zone and only that frame becomes allocated; it fails if and only if the zone has no free frame, and then nothing changes |
| `FrameBitmap.Bitmap.MemFree` | kernel/mm.c:199-203 | the frame becomes free and no other changes |
| `FrameBitmap.Bitmap.AllocThenFree` | kernel/mm.c:199-203 | freeing what was just allocated restores every byte of the bitmap |
| `FrameBitmap.Bitmap.ZerosAreCounted` | kernel/mm.c:72-80 | the zero bits of a byte are as many as its free frames |
| `FrameBitmap.Bitmap.FreePageCount` | kernel/mm.c:56-82 | the count is the number of free frames of the zone |
| `FrameBitmap.Bitmap.AllocLowersCount` | kernel/mm.c:56-82 | an allocation lowers the count by one, and fails if and only if the count is zero |
| `PageTables.StoreEntry` | kernel/mm.c:131-134 | a store into a table changes the lookup of one page of one directory and of no other, because table frames are pairwise different |
| `PageTables.AddTable` | kernel/mm.c:121-129 | hanging a cleared table into a directory changes no lookup and keeps all table frames different |
| `PageTables.AddDirectory` | kernel/mm.c:206-215 | a new directory maps no user page and leaves the lookups of the others as they were |
| `PageTables.DropDirectory` | kernel/mm.c:239-242 | removing a directory leaves the others as they were |
| `PageTables.Tables.PtEntryFor` | kernel/mm.c:88-98 | the entry that the two-level walk finds is the one of the flat map, or none if there is no table |
| `PageTables.LookupIsHardwareWalk` | kernel/mm.c:88-98 | for every address with a table the flat lookup of its page is the walk of the processor: bits 31 to 22 choose in the directory, bits 21 to 12 in the table |
| `PageTables.Tables.MapFrame` | kernel/mm.c:115-137 | exactly the one page of the one directory becomes mapped to the frame, present, writable, not shared and not marked; a missing table is made, cleared, from a kernel frame |
| `PageTables.Tables.SetPtEntry` | kernel/mm.c:372-395 | the entry of exactly that page becomes the given one, or nothing changes and the answer is false because no kernel frame was free |
| `PageTables.Tables.UnmapPage` | kernel/mm.c:139-149 | the entry of exactly that page becomes zero |
| `PageTables.Tables.DirNew` | kernel/mm.c:206-215 | a fresh directory with only the kernel table, in a kernel frame that was free |
| `PageTables.Tables.EnsureTable` | kernel/mm.c:380-389 | after it the table is there and no lookup changed; it fails only for want of a kernel frame |
| `PageTables.Tables.FreeTable` | kernel/mm.c:239-242 | the kernel frame of a table or directory that is out of use is free again, and one more can be had |
| `PageTables.Tables.Kalloc` | kernel/mm.c:191-193 | the frame was free and of the kernel zone |
| `PageTables.Tables.Alloc` | kernel/mm.c:195-197 | the frame was free and of the user zone |
| `PageTables.Tables.CopyEntry` | kernel/loader.c:470-501 | one page at fork: shared pages are shared by parent and child, private ones become read-only and marked in both, requests are copied, the kernel stack is skipped; no other page changes |
| `PageTables.Tables.CopyTable` | kernel/loader.c:468-502 | the same for all pages of a table |
| `PageTables.Tables.CopyNonkernelPages` | kernel/loader.c:463-506 | the same for every page from 4 MB on; the pages of every other directory stay as they were |
| `CopyOnWrite.LazyForkSimulatesEagerFork` | kernel/loader.c:463-506 | main result: in every run (loads by the idle process and by others, reads, writes with their faults, palloc, share_page, fork, exit, any interleaving) the lazy machine steps as the machine whose fork copies every page that is not shared at once, and every process reads the same bytes in both |
| `CopyOnWrite.FramesStayInPlace` | kernel/mm.c:217-243 | in every reachable state, whatever was called, whoever loaded a program and wherever the kernel stored: equal frames are at equal addresses, no frame the allocator may hand out is mapped, and no teardown releases a frame that another process maps |
| `CopyOnWrite.RunKeepsPlaced` | kernel/mm.c:507-528 | the invariant behind that holds in every reachable state |
| `CopyOnWrite.StepKeepsPlaced` | kernel/mm.c:443-528 | every call keeps it, share_page of a marked page, loads by a process with a shared first page and stores by the kernel included |
| `CopyOnWrite.FramesAreOwned` | kernel/loader.c:476-498 | while share_page is applied to unmarked pages only, a process that loads a program is the only one with its first page, and wherever the kernel stores, two processes that map one frame both share it or neither can write to it |
| `CopyOnWrite.StepKeepsInv` | kernel/mm.c:507-528 | every step keeps the ownership invariant, other than share_page of a marked page and a load by a process whose first page others have |
| `CopyOnWrite.RunKeepsInv` | kernel/mm.c:507-528 | so it holds in every state reachable by such steps |
| `CopyOnWrite.StepSimulates` | kernel/mm.c:443-462 | each single step is a step of the eager machine and keeps the invariant |
| `CopyOnWrite.FetchIsSeen` | kernel/mm.c:88-98 | what a process fetches through its entry is what the eager machine lets it see |
| `CopyOnWrite.ExitKeepsInv` | kernel/mm.c:217-243 | teardown keeps the invariant |
| `CopyOnWrite.NotFreed` | kernel/mm.c:217-243 | teardown never releases a frame that another live process maps, in every state that satisfies the weaker invariant of all runs |
| `CopyOnWrite.ExitSimulates` | kernel/mm.c:217-243 | after an exit every other process sees what it saw |
| `CopyOnWrite.PokeSimulates` | kernel/loader.c:484-498 | a store to a page that the process owns changes what that process sees there, and what those see that share it, and nothing else |
| `CopyOnWrite.FaultSimulates` | kernel/mm.c:443-462 | a fault changes nothing that any process sees, except that a requested page becomes a page and that a process without memory or right is ended |
| `CopyOnWrite.FaultKeepsInv` | kernel/mm.c:443-462 | every outcome of a fault keeps the invariant |
| `CopyOnWrite.FaultChangesOnePage` | kernel/mm.c:507-528 | a fault that does not end the process changes only the entry of the page that faulted |
| `CopyOnWrite.FaultMakesProgress` | kernel/mm.c:443-462 | after a fault that the process survives the access that faulted is allowed |
| `CopyOnWrite.PallocSimulates` | kernel/mm.c:427-436 | palloc marks one page as requested and does not change what is in any page |
| `CopyOnWrite.ShareSimulates` | kernel/mm.c:479-495 | share_page on a page not marked for copying makes it common and keeps its contents |
| `CopyOnWrite.ShareKeepsInvIff` | kernel/mm.c:482-492 | share_page keeps the ownership invariant if and only if the page is not marked for copying on write |
| `CopyOnWrite.ForkEntries` | kernel/loader.c:463-523 | the entries of parent and child after a fork |
| `CopyOnWrite.ForkKeepsInv` | kernel/loader.c:525-556 | fork keeps the invariant |
| `CopyOnWrite.ForkSimulates` | kernel/loader.c:525-556 | fork is the copy of everything that is not shared |
| `CopyOnWrite.LoadSimulates` | kernel/loader.c:197-226 | a program loaded is a new process with private pages, the filled ones with their contents, and nobody else sees a change |
| `CopyOnWrite.LoadByKeepsInvIff` | kernel/loader.c:165-226 | when a process that uses its first page loads a program, that page comes back writable and without marks; the load keeps the ownership invariant if and only if no other process has its frame |
| `CopyOnWrite.LoadBySimulates` | kernel/loader.c:165-226 | and then it is a step of the eager machine: a new process with private pages, and the first page of the caller is private again with its contents |
| `CopyOnWrite.RestoreKeepsInvIff` | kernel/loader.c:182-188 | the same for putting the first page back alone, which always keeps frames in their places |
| `CopyOnWrite.KernelWriteSimulatesIff` | kernel/common.c:7-15 | a store by the kernel through a user pointer (RW is not enforced in ring 0, kernel/kernel.c:31-33) agrees with eager copying if and only if the entry is writable or no other process has the frame |
| `CopyOnWrite.SharedAfterForkIff` | kernel/mm.c:479-495 | after share_page and fork the child sees the stores of the parent if and only if the page was not marked for copying on write |
| `CopyOnWrite.ChildStoreKeepsOthersIff` | kernel/mm.c:479-495 | after share_page and fork the stores of the child leave the private pages of all other processes alone if and only if the page was shared before or the parent was the only one with the frame |
| `CopyOnWrite.LastOwnerLeaksIff` | kernel/mm.c:546-560 | on a write fault the last owner of a frame copies it and loses the old frame if and only if some other process has a page at that address, whatever its frame; so the promise that the last owner just writes holds otherwise only |
| `CopyOnWrite.TeardownReleasesIff` | kernel/mm.c:223-237 | an exit frees the frame of a page if and only if no other process has a page at that address; frames of pages the process does not have stay allocated, and no contents change |
| `CopyOnWrite.FaultCopiesIff` | kernel/mm.c:507-528 | a store to a page to be copied on write keeps the frame, takes none and copies nothing if no other process has a page at that address; otherwise the page gets the new frame, with the contents of the old one |
| `CopyOnWrite.HeldIsMapped` | kernel/mm.c:530-560 | in every reachable state the test for other owners asks whether another process has that page present |
| `CopyOnWrite.TeardownLeaksIff` | kernel/mm.c:223-237 | the same for the teardown of a directory: a frame stays allocated and is mapped nowhere if and only if the process was its only owner and some other process has a page at that address |
| `FrameLosses.ExitLosesIff` | kernel/mm.c:217-243 | the frames that nobody maps and nobody can free after an exit are those of before and those that the process alone had where another one has something else |
| `FrameLosses.FaultLosesIff` | kernel/mm.c:443-462 | the same for a fault, whatever comes of it |
| `FrameLosses.StepLosesIff` | kernel/mm.c:443-560 | conservation of frames: a call, whichever, loses a frame if and only if it ends its only owner, or makes that copy it, while another process has something else at that address; lost frames stay lost |
| `FrameLosses.LostFrames` | kernel/mm.c:443-560 | so in every run a frame is allocated without being mapped if and only if it was so at the start or some call lost it in that way |
| `CopyOnWriteRuns.LastOwnerLeaks` | kernel/mm.c:546-560 | a run: fork, a store by the parent, a store by the child, and a frame is lost although the child was its only owner |
| `CopyOnWriteRuns.TeardownLeaks` | kernel/mm.c:223-237 | a run: fork, a store by the parent, exit of the child, and a frame is lost |
| `CopyOnWriteRuns.KernelStoreIsSeenByChild` | kernel/common.c:7-15 | a run: fork, a store by the kernel for the parent, and the child reads it |
| `CopyOnWriteRuns.SharedPageIsNotShared` | kernel/mm.c:479-495 | a run: fork, share_page, fork, a store by the parent, and the second child does not read it |
| `CopyOnWriteRuns.ChildStoreChangesPrivatePage` | kernel/mm.c:479-495 | a run: fork, share_page, fork, a store by the second child, and it changes the private page of the first |
| `CopyOnWriteRuns.LoadingParentWritesToChild` | kernel/loader.c:182-188 | a run: fork, a load by the parent, a store by the parent to its first page, and the child reads it |
| `MemoryManager.Manager.HeldByOthers` | kernel/mm.c:546-560 | true if and only if some other process has that page present or marked for copying |
| `MemoryManager.Manager.SharedByOthers` | kernel/mm.c:530-544 | true if and only if some other process has that page shared |
| `MemoryManager.Manager.DirFree` | kernel/mm.c:217-243 | exactly the frames the flat machine frees become free (TeardownReleasesIff says which), and in the kernel zone exactly the directory and its tables, so there is room for as many more; every other directory stays as it was |
| `MemoryManager.Manager.Exit` | kernel/loader.c:344-369 | the tables, the bitmap and the process list step as the flat machine does at exit; the kernel zone gets back the directory and every table of the process, and nothing else |
| `MemoryManager.Manager.SwitchTo` | kernel/taskswitch.asm:66-100 | another process runs; nothing else changes |
| `MemoryManager.Manager.UserAllocate` | kernel/mm.c:497-505 | a requested page becomes a mapped one, or the process ends for want of a frame: the step of the flat machine |
| `MemoryManager.Manager.CopyPage` | kernel/mm.c:517-527 | the contents go through the scratch page to the new frame, which replaces the old one at that page only |
| `MemoryManager.Manager.CopyInto` | kernel/mm.c:517-527 | with the frame it got, the copy is the step of the flat machine |
| `MemoryManager.Manager.CopyForWrite` | kernel/mm.c:517-527 | the copy, or the end of the process for want of a frame, as in the flat machine |
| `MemoryManager.Manager.CopyOnWrite` | kernel/mm.c:507-528 | copy or regain the right to write, as in the flat machine (FaultCopiesIff says which) |
| `MemoryManager.Manager.PageFault` | kernel/mm.c:443-462 | the dispatch of the handler is the step of the flat machine |
| `MemoryManager.Manager.UserStore` | kernel/mm.c:443-462 | a store by user code, with the fault it may take first, is the step of the flat machine |
| `MemoryManager.Manager.SharePage` | kernel/mm.c:479-495 | the answer and the new state are those of the flat machine |
| `MemoryManager.Manager.Palloc` | kernel/mm.c:427-436 | the next page is requested and answered; the pointer advances even when it fails |
| `MemoryManager.Manager.SetAsRequested` | kernel/mm.c:397-408 | the entry of exactly that page is marked as requested, or nothing changes because no kernel frame was free |
| `MemoryManager.Manager.GetNewPid` | kernel/loader.c:74-82 | the least pid that is free |
| `MemoryManager.Manager.Fork` | kernel/loader.c:525-556 | the two-level tables of parent and child, the frames and the process list after a fork are those of the flat machine; it takes at most three kernel frames more than the parent has tables |
| `MemoryManager.Manager.ForkPages` | kernel/loader.c:549-550 | the tables of the child, made page by page and with a kernel stack of its own |
| `MemoryManager.Manager.CreateChildKernelStack` | kernel/loader.c:508-523 | the child gets a fresh frame as its kernel stack; the scratch page is unmapped again |
| `ProgramLoader.Load` | kernel/loader.c:197-226 | the two-level tables, frames, contents and process list after a load are those of the flat machine: a new process with both stacks and each page of the program in a fresh frame of its own, filled as given |
| `ProgramLoader.LoadByProcess` | kernel/loader.c:165-226 | the same for a process that uses its first page: it is remembered, gives way to the pages that are filled, and is mapped again, writable and without marks |
| `ProgramLoader.LoadStacks` | kernel/loader.c:114-133 | a new directory with the kernel stack, filled, and the user stack; all other directories show what they showed |
| `ProgramLoader.LoadData` | kernel/loader.c:135-163 | the loop puts every page of the program at its place, in fresh frames with their contents |
| `ProgramLoader.LoadPage` | kernel/loader.c:143-157 | one page: a frame that nobody has, mapped in the new directory only, filled through the first page of the caller |
| `ProgramLoader.LoadAndRun` | kernel/loader.c:197-226 | a program just loaded can be switched to and gets the page after its data from palloc |
| `MemorySession.Kernel.Store` | kernel/mm.c:443-462 | a store by user code, with its fault, adds the fault, if any, and the store, if the process survives, to the run |
| `MemorySession.Kernel.Fork` | kernel/loader.c:525-556 | a fork adds the step Fork |
| `MemorySession.Kernel.Load` | kernel/loader.c:197-226 | a load by the idle process adds the step Load |
| `MemorySession.Kernel.LoadBy` | kernel/loader.c:165-226 | a load by a process that uses its first page adds the step LoadBy |
| `MemorySession.Kernel.Palloc` | kernel/mm.c:427-436 | palloc adds the step Palloc |
| `MemorySession.Kernel.Share` | kernel/mm.c:479-495 | share_page adds the step Share |
| `MemorySession.Kernel.Exit` | kernel/loader.c:344-369 | an exit adds the step Exit |
| `MemorySession.Kernel.Fetch` | kernel/mm.c:88-98 | the byte found through the tables is the one the flat machine fetches |
| `MemorySession.Kernel.InPlace` | kernel/mm.c:217-243 | whatever was called in whatever order, frames in the tables are at one address only, none is handed out again while mapped, and no exit releases one that another process maps |
| `MemorySession.Kernel.FetchesWhatIsSeen` | kernel/loader.c:463-506 | after any careful calls the tables and frames give every process the bytes that it has when fork copies every page at once |
| `MemorySession.Kernel.ForkAndStore` | kernel/loader.c:463-506 | fork, a store by the parent, a run of the child, its exit: the child fetches the byte from before the fork, the parent the one it stored |
| `RunRing.PotentialStep` | kernel/sched.c:108-169 | each tick lowers the potential of a waiting task by exactly one, an exit never raises it, a load by at most 11; it is 0 if and only if the task runs |
| `RunRing.BoundedWaiting` | kernel/sched.c:145-169 | a ready task waits fewer ticks than its first potential plus 11 for every task loaded since |
| `RunRing.RoundRobin` | kernel/sched.c:145-169 | with nobody coming or leaving, each task in turn runs for eleven ticks, for ever: after n ticks the one that runs is n / 11 places on |
| `RunRing.ExitAdvances` | kernel/sched.c:108-139 | when the running task leaves, it alone is gone, every other one moves up by one place, and the next has a full quantum |
| `RunRing.LoadedLast` | kernel/sched.c:72-102 | a task loaded comes right behind the one loaded last; only those behind it wait for one more, and the running one goes on |
| `RunRing.TwoStarveAThird` | kernel/sched.c:104-143 | in the ring: two processes that block and wake each other keep a third, ready all the time, from running for any number of ticks |
| `Scheduler.Scheduler.constructor` | kernel/sched.c:59-70 | an empty ring |
| `Scheduler.Scheduler.FreeSlot` | kernel/sched.c:75-81 | the slot found is free |
| `Scheduler.Scheduler.Load` | kernel/sched.c:72-102 | the linked list is the ring with the pid added last; it stays a circular doubly linked list with full quanta |
| `Scheduler.Scheduler.LinkAfterLast` | kernel/sched.c:83-101 | which links of which nodes change |
| `Scheduler.Scheduler.LinkOnto` | kernel/sched.c:89-98 | the same for a list that is not empty |
| `Scheduler.Scheduler.Exit` | kernel/sched.c:108-139 | the task that ran leaves, its successor takes over with a full quantum and is the answer; 0 when nobody is left |
| `Scheduler.Scheduler.UnlinkActual` | kernel/sched.c:113-127 | which links of which nodes change |
| `Scheduler.Scheduler.Tick` | kernel/sched.c:145-169 | one tick of the quantum, or the next task with a full one; the answer is the pid that runs |
| `Scheduler.AppendCoherent` | kernel/sched.c:83-101 | the new links form the ring with one pid more |
| `Scheduler.RemoveOne` | kernel/sched.c:113-127 | the remaining links form the ring without the task that left |
| `Scheduler.QuantumCoherent` | kernel/sched.c:156-160 | writing a quantum leaves the list as it is |
| `Lifecycle.InsertAddsOne` | kernel/loader.c:269-302 | the walk adds one sleeper and loses none; the head stays positive |
| `Lifecycle.InsertKeepsDeadlines` | kernel/loader.c:275-302 | the new sleeper is due in exactly the ticks asked for and every other one when it was |
| `Lifecycle.DueExactly` | kernel/loader.c:336-341 | a sleeper is woken if and only if nothing remains of its time; the others keep theirs |
| `Lifecycle.DueAndNotDue` | kernel/loader.c:336-341 | every sleeper is woken or kept, none twice; the head that is left is positive |
| `Lifecycle.CloserByOne` | kernel/loader.c:336-336 | the tick brings every sleeper one closer |
| `Lifecycle.StepKeepsInv` | kernel/loader.c:228-369 | each event (spawn, block, wake, sleep, tick, exit) keeps the partition of the pids |
| `Lifecycle.RunKeepsInv` | kernel/loader.c:228-369 | the partition holds in every reachable state |
| `Lifecycle.OnePlaceEach` | kernel/loader.c:228-369 | in every reachable state each live process but the idle one is in exactly one of the ring, a wait queue and the delta queue; the running one waits nowhere |
| `Lifecycle.RingFits` | kernel/sched.c:75-81 | so the ring never needs all slots and sched_load always finds one |
| `Lifecycle.SleeperStep` | kernel/loader.c:329-342 | what one event does to a sleeper: only a tick brings it closer, and it is in the ring right after its last |
| `Lifecycle.SleepIsExact` | kernel/loader.c:263-342 | a process that sleeps for t > 0 ticks is asleep, with exactly the rest of them to go, until the t-th tick, and ready right after it, whatever happens in between |
| `WakeOrder.QueuesAreFifo` | kernel/loader.c:228-261 | in every run every wait queue is first come, first served: who has blocked in it are those that its wake-ups put at the end of the ring, in that order, and then those who wait |
| `WakeOrder.BlockIsExact` | kernel/loader.c:228-261 | the process that blocks in queue q behind k others waits there, and in no other place, until exactly the (k + 1)-th wake-up of q and is ready right after it, whatever happens in between; no other queue changes when it blocks |
| `WakeOrder.WaiterStep` | kernel/loader.c:228-261 | what one event does to a process that waits: only a wake-up of its queue moves it, by one place |
| `WakeOrder.FifoStep` | kernel/loader.c:228-261 | each event adds to a queue at its end who blocks in it and takes from its front whom it wakes |
| `WakeOrder.InsertPlace` | kernel/loader.c:275-302 | a new sleeper goes behind those that wake before it and in front of those that wake with it or later |
| `WakeOrder.TickWakesInOrder` | kernel/loader.c:329-342 | a tick puts exactly the sleepers with one tick left at the end of the ring, in their order, and the scheduler may choose one in the same interrupt |
| `WakeOrder.LivesAndDies` | kernel/loader.c:197-369 | a spawn adds the process to the live ones and to the ring; an exit takes the running one out of all places and out of the live ones; a sleep of 0 ticks does nothing |
| `WakeOrder.SuccessorRuns` | kernel/loader.c:228-369 | when the running process blocks, sleeps or ends all other ready ones move up by one; when one is woken or spawned the running one goes on with what it has left |
| `Lifecycle.ReadyProcessesRun` | kernel/loader.c:228-369 | in the whole system a ready process runs within its potential plus 11 for each process loaded meanwhile |
| `WakeOrder.LoadedIsJoined` | kernel/loader.c:228-369 | the processes that this bound counts as loaded are exactly those that join the ring |
| `Lifecycle.TwoStarveAThird` | kernel/loader.c:228-261 | the same as a run of the whole system from its start: spawns, and then any number of rounds in which two processes block and wake each other |
| `WaitQueues.Append` | kernel/loader.c:232-242 | the links written make the queue longer by the process at its end and leave every other queue as it is |
| `WaitQueues.Pop` | kernel/loader.c:249-260 | the links written take the head off; it has no links any more |
| `WaitQueues.InsertedChain` | kernel/loader.c:289-301 | the entries written are the delta queue with the sleeper inserted |
| `WaitQueues.CloserChain` | kernel/loader.c:336-336 | the entries after the head got closer |
| `WaitQueues.DueChain` | kernel/loader.c:337-341 | the entries after the head was taken off |
| `Loader.RunningIsFree` | kernel/loader.c:349-363 | in every reachable state the running process is in no queue and does not sleep |
| `Loader.RingIsBounded` | kernel/sched.c:75-81 | in every reachable state there are fewer ready processes than slots |
| `Loader.Loader.constructor` | kernel/loader.c:49-63 | only the idle process |
| `Loader.Loader.Tail` | kernel/loader.c:235-238 | the walk finds the last of the queue |
| `Loader.Loader.Enqueue` | kernel/loader.c:228-245 | PCB links, queue heads and scheduler after a process blocked are the event Block, of which QueuesAreFifo and BlockIsExact say where it waits and for how long; its assertions hold in every reachable state |
| `Loader.Loader.Unqueue` | kernel/loader.c:247-261 | the first that waits, if there is one, is ready: the event Wake |
| `Loader.Loader.Unblock` | kernel/sched.c:104-106 | there is always a free slot |
| `Loader.Loader.GetNewPid` | kernel/loader.c:74-82 | the least free pid |
| `Loader.Loader.Spawn` | kernel/loader.c:197-226 | a new process is ready: the event Spawn |
| `Loader.Loader.Exit` | kernel/loader.c:344-369 | the event Exit; the branches that unlink the process from a queue never run |
| `Loader.Loader.Walk` | kernel/loader.c:274-288 | where the walk of loader_sleep stops, and what is left of the time |
| `Loader.Loader.Sleep` | kernel/loader.c:263-306 | the threaded array after it is the delta queue with the process inserted: the event Sleep; nothing happens for 0 |
| `Loader.Loader.Timer` | kernel/taskswitch.asm:34-62 | loader_tick, sched_tick and the switch are the event Tick |
| `Loader.Loader.WakeDue` | kernel/loader.c:337-341 | the loop readies exactly those that are due, in order |
| `Pipe.OverlayHolds` | kernel/pipe.c:144-152 | writing to the ring, around its end if need be, appends to the bytes it holds and destroys none that is not read |
| `Pipe.AroundTakes` | kernel/pipe.c:108-116 | what is read from the ring are the oldest bytes in it |
| `Pipe.Pair.constructor` | kernel/pipe.c:76-88 | an empty pipe with both ends open |
| `Pipe.Pair.WakeReaders` | kernel/pipe.c:210-216 | the loop ends, with the queue empty and all of it ready in order |
| `Pipe.Pair.WakeWriters` | kernel/pipe.c:210-216 | likewise |
| `Pipe.Pair.Write` | kernel/pipe.c:129-163 | both ends agree on the occupancy, the positions are those of the bytes that went through, and state, result and waiting are those of the specification |
| `Pipe.Pair.Read` | kernel/pipe.c:93-127 | likewise, with the contents of the user buffer; WakesInOrder and NobodyIsLost say what becomes of those that wait |
| `Pipe.Pair.WriteRound` | kernel/pipe.c:142-157 | one round: both copies of the occupancy and the position advance and all readers are woken |
| `Pipe.Pair.ReadRound` | kernel/pipe.c:106-121 | one round of a read |
| `Pipe.Pair.CopyIn` | kernel/pipe.c:144-150 | the bytes that get into the ring are those from the start of the user buffer |
| `Pipe.Pair.CopyOut` | kernel/pipe.c:108-114 | the bytes are left at the start of the user buffer |
| `Pipe.Pair.FlushReadEnd` | kernel/pipe.c:165-177 | the end is closed, all writers are woken, and the buffer is freed if and only if the other end is closed |
| `Pipe.Pair.FlushWriteEnd` | kernel/pipe.c:165-177 | likewise |
| `PipeStreams.WriteSegment` | kernel/pipe.c:132-160 | a write moves bytes in at most one round before it returns or waits; all its outcomes |
| `PipeStreams.ReadSegment` | kernel/pipe.c:96-124 | likewise for a read; whom it wakes is stated by WakesInOrder |
| `PipeStreams.SentIff` | kernel/pipe.c:144-150 | the bytes put are the ones the caller asked for, for all data, if and only if the round is the first of its call and does not wrap (or the offset is added) |
| `PipeStreams.ReceivedIff` | kernel/pipe.c:108-114 | likewise for the bytes a reader finds |
| `PipeStreams.SentAre` | kernel/pipe.c:144-150 | byte for byte what a round puts as the code is: the data from its start, and from its start again behind the end of the buffer |
| `PipeStreams.ReceivedAre` | kernel/pipe.c:108-114 | and what it leaves in the buffer of a reader: the bytes at its start, those from behind the end over the others |
| `PipeStreams.WriteIsRightIff` | kernel/pipe.c:129-163 | the bytes a call puts before it returns or blocks are the next ones of its data, for all data, if and only if the offset is added or the call is not resumed and its bytes end before the buffer does |
| `PipeStreams.FittingWriteIsRightIff` | kernel/pipe.c:129-163 | a write of n bytes for which there is room puts them unharmed, for all data, if and only if the offset is added or they fit before the end of the buffer |
| `PipeStreams.ResumedWriteIsRightIff` | kernel/pipe.c:139-157 | a write that has blocked goes on with the right bytes, for all data, if and only if the offset is added |
| `PipeStreams.ResumedWriteRepeatsBytes` | kernel/pipe.c:139-157 | six bytes through a buffer of four: the last two put are the first two again |
| `PipeStreams.WrapRepeatsBytes` | kernel/pipe.c:144-147 | a write of three bytes that puts the first one twice |
| `PipeStreams.StepKeeps` | kernel/pipe.c:93-177 | each call and each close keeps the bounds and loses no wake-up |
| `PipeStreams.NobodySleepsForNothing` | kernel/pipe.c:93-177 | in every run readers wait only while the pipe is empty and can still be written, writers only while it is full and can still be read; never both |
| `PipeStreams.WakesInOrder` | kernel/pipe.c:93-177 | whoever moves a byte, or closes an end, makes ready all that wait for that, in the order in which they came, and nobody else; whoever blocks comes last in its queue |
| `PipeStreams.NobodyIsLost` | kernel/pipe.c:93-177 | in every run the processes that have blocked so far are, one by one and in that order, those made ready and then those who wait |
| `PipeStreams.StraightStep` | kernel/pipe.c:93-163 | what a step takes from the writer and leaves with the reader is what goes through the ring |
| `PipeStreams.PipeIsFifo` | kernel/pipe.c:93-163 | along every run of such steps the readers get the first part of what the writers sent, and the rest is in the buffer |
| `PipeStreams.AdvancingPipeIsFifo` | kernel/pipe.c:93-163 | with the offset added this holds for every run, across wraps, waiting and partial calls |
| `PipeSlots.JoinKeepsPairingIff` | kernel/pipe.c:57-88 | reusing two closed endpoints keeps all pairs if and only if no open endpoint belongs to one of them |
| `PipeSlots.ReuseBreaksPairing` | kernel/pipe.c:57-67 | a pipe half closed whose slot goes to a new pipe |
| `PipeSlots.FirstClosed` | kernel/pipe.c:57-67 | the least closed endpoint from a place on |
| `PipeSlots.Endpoints.Open` | kernel/pipe.c:53-91 | the two least closed endpoints become a pair and no other changes, or nothing changes and the answer is -ENOMEM |
| `Descriptors.Devices.constructor` | kernel/device.c:47-54 | no descriptors |
| `Descriptors.Devices.Start` | kernel/loader.c:197-226 | a process just loaded has no descriptor |
| `Descriptors.Devices.Descriptor` | kernel/device.c:32-45 | the least free descriptor gets the device, and its reference count stays the number of cells; MAX_FD and no change when there is none |
| `Descriptors.Devices.Close` | kernel/device.c:72-91 | the cell is cleared and the device flushed if and only if it was the last one that pointed to it |
| `Descriptors.CloseEmptiesOneCell` | kernel/device.c:72-91 | close fails and changes nothing if and only if the number is out of range or the descriptor is not open; otherwise that cell alone becomes empty, and it is the last of its device if and only if no cell has the device then |
| `Descriptors.Devices.CopyFds` | kernel/device.c:13-21 | the child has what the parent has, nobody else changes, and every count is again the number of cells |
| `Descriptors.Devices.CloseAll` | kernel/device.c:23-30 | no descriptor of the process is left, nobody else changes, and each device whose last cell went was flushed exactly once |
| `Descriptors.CloseStaysInRowIff` | kernel/device.c:72-85 | close touches only descriptors of its caller if and only if the number is below MAX_FD |
| `Descriptors.TwoProcesses` | kernel/device.c:32-45 | two processes get a device each |
| `Descriptors.CloseReachesNeighbour` | kernel/device.c:72-85 | the first of them closes MAX_FD: the other has lost its descriptor |
| `XorStream.ChunksDoNotMatter` | tasks/krypt.c:63-77 | the output depends on the stream only, not on how it was cut into chunks |
| `XorStream.DecryptUndoesEncrypt` | tasks/unkrypt.c:35-46 | decryption gives back the stream, whatever chunks either side read |
| `XorStream.CipherIsInjective` | tasks/krypt.c:72-74 | different streams have different ciphers |
| `XorStream.CipherIsNameXored` | tasks/krypt.c:72-74 | each byte is combined with a letter of "SpuriOS", given here as its seven ASCII codes, at its offset in the stream modulo 7 |
| `XorStream.ZerosShowTheName` | tasks/krypt.c:10-74 | seven zeros come out as the seven letters |
| `XorStream.SamePad` | tasks/krypt.c:72-74 | what is combined with a byte depends on its place modulo 7 and on nothing else, in any two streams |
| `XorStream.XorBuffer` | tasks/krypt.c:72-74 | the loop over a buffer leaves the cipher of its first bytes at that offset (CipherIsNameXored) and the other bytes as they were |
| `XorStream.Encrypt` | tasks/krypt.c:51-81 | the whole loop with its running offset: byte i of the output is byte i of the stream combined with letter i modulo 7 of "SpuriOS" |
| `Memkrypt.SignalAddsTokens` | kernel/lib.c:49-52 | on a pipe with room sem_signal adds that many tokens and wakes all |
| `Memkrypt.WaitTakesOneToken` | kernel/lib.c:54-57 | sem_wait takes a token or blocks while there is none |
| `Memkrypt.StepKeepsInv` | tasks/memkrypt.c:31-126 | each step of each process keeps the counters, the end mark, the indices, the pages, the local variables and the streams in order |
| `Memkrypt.RunKeepsInv` | tasks/memkrypt.c:31-126 | so they hold in every run |
| `Memkrypt.StagesAreApart` | tasks/memkrypt.c:46-58 | no two stages ever work on one page and never both hold the mutex |
| `Memkrypt.TokensAreConserved` | tasks/memkrypt.c:41-46 | after start-up the tokens and the pages held are always BUFFER_PAGES together, and w <= e <= r <= w + BUFFER_PAGES |
| `Memkrypt.TokensFit` | tasks/memkrypt.c:41-46 | in every run no semaphore has more tokens than there are pages, which its pipe can take; so no sem_signal blocks |
| `Memkrypt.OutputIsEncryptedFile` | tasks/memkrypt.c:106-117 | what was written is always the encryption of the first part of the file, and of all of it at the end |
| `Memkrypt.OutputIsNameXored` | tasks/memkrypt.c:79-117 | at every point of every run each byte written is that of the file combined with its letter of "SpuriOS" |
| `Memkrypt.SamePlaceSamePad` | tasks/memkrypt.c:79-81 | so two bytes seven apart are combined with the same letter |
| `Memkrypt.ZerosComeOutAsName` | tasks/memkrypt.c:79-117 | a file of seven zeros comes out as the name |
| `Memkrypt.SomeStageSteps` | tasks/memkrypt.c:31-126 | until all three are done one of them can go on |
| `Memkrypt.RunsEnd` | tasks/memkrypt.c:31-126 | under any scheduling a run has at most 21 steps a byte and 31 more |
| `Memkrypt.FinishedRunsWroteTheFile` | tasks/memkrypt.c:31-126 | a run that cannot go on has written the encryption of the whole file, byte for byte the file combined with "SpuriOS" over and over |
| `Memory.CopyBytes` | kernel/lib.c:164-171 | exactly the bytes of the range are copied |
| `BlockDevice.EnhancedRead` | kernel/ext2.c:35-57 | for every alignment and length the buffer gets exactly disk[start..start + count] and nothing else changes |
| `BlockDevice.CountSectors` | kernel/ext2.c:39-43 | the number of sectors to read, by division, is the one the loop needs |
| `BlockDevice.ReadSectors` | kernel/ext2.c:47-56 | the loop, sector by sector |
| `Ext2Blocks.LookupIsFileBlock` | kernel/ext2.c:410-414 | the lookup through the list ends where the pointers lead (direct, singly, doubly indirect) for every index; that is the block of the file as ext2 defines it if no pointer on the way is 0, and otherwise the file has a hole there |
| `Ext2Blocks.FoundOrHole` | kernel/ext2.c:409-414 | what the code finds is the block of the file, or the file has a hole there |
| `Ext2Layout.BlockIsFound` | include/ext2.h:82-82 | for a file laid out as ext2 does it (twelve pointers in the inode, 256 in the singly indirect block, 256 in each of three lists) the code finds for each index the block that was put there, and 0 makes a hole |
| `Ext2Layout.FileIsRead` | kernel/ext2.c:399-424 | whatever is written to such blocks, 1024 bytes to each, is the contents of the file; without holes it is what the code reads |
| `Ext2Layout.WordIsRead` | include/ext2.h:69-91 | four bytes are read as a number if and only if they are its little-endian form, for every number of 32 bits |
| `Ext2Layout.HalfIsRead` | include/ext2.h:94-100 | the same for two bytes |
| `Ext2Layout.InodeIsRead` | include/ext2.h:69-91 | the size at 4 and the fifteen pointers from 40 on of an inode of 128 bytes are read as they were written |
| `Ext2Layout.TableIsRead` | kernel/ext2.c:170-176 | inode id is number (id - 1) modulo the size of a group in the table of its group: inodes written there one after the other are read under their numbers, counted from 1 group by group |
| `Ext2Layout.DirectoryIsRead` | include/ext2.h:94-100 | a directory written record by record (inode, length, length of the name, kind, name, padding) is well formed and is read as its list of entries |
| `Ext2Blocks.BlockList` | kernel/ext2.c:342-377 | the list built by ext2_open, with its words 256 to 258 used and overwritten, is right for every index of a file of up to 1036 blocks |
| `Ext2Blocks.DoublyIndirectPointers` | kernel/ext2.c:359-363 | the three pointers kept aside |
| `Ext2File.SeekKeepsSyncedIff` | kernel/ext2.c:475-495 | a seek leaves the cache right if and only if it does not go to the next page after a read that ended on a page boundary |
| `Ext2File.SeekGoesThere` | kernel/ext2.c:475-495 | a seek goes to the place it was asked to, and has the page of that place in the buffer unless it is stale |
| `Ext2File.ReadSyncs` | kernel/ext2.c:426-473 | a read leaves the cache right if it found it right or loaded a page, and the buffer never gets ahead of the position |
| `Ext2File.StaleSeek` | kernel/ext2.c:482-487 | read one page, seek to 5000: the first page is still in the buffer |
| `Ext2File.ReadIsRightIff` | kernel/ext2.c:443-468 | the bytes of a read are those at the position, for all contents, if and only if nothing is read, the cache is right, or it is used up |
| `Ext2File.ClippedIff` | kernel/ext2.c:438-440 | the size read is what is left of the file, at most, if and only if position plus size fits in 32 bits |
| `Ext2File.WrappedSize` | kernel/ext2.c:438-440 | ten bytes, one read, 2^32 - 1 asked for: nothing is clipped |
| `Ext2File.FillBlock` | kernel/ext2.c:415-419 | one more block of the page is right |
| `Ext2File.File.constructor` | kernel/ext2.c:322-385 | an open file at position 0 with nothing loaded |
| `Ext2File.File.LoadBuffer` | kernel/ext2.c:399-424 | the buffer holds the page with the position, byte for byte as the pointers of the inode and its lists lead there (LoadIsFileIff says when that is the file) |
| `Ext2File.File.Read` | kernel/ext2.c:426-473 | the user gets the rest of what the buffer holds, from wherever that was loaded, and then the bytes found from the position on, clipped at the end of the file, for right and stale caches alike; or -1 because an address was not the user's, with the bytes before it copied and the position after them |
| `Ext2File.File.CopyPages` | kernel/ext2.c:443-468 | the loop ends, although a round may move nothing, with these bytes copied |
| `Ext2File.EndIsPastListIff` | kernel/ext2.c:409-414 | a load at the end of the file indexes past its list if and only if the size is 12288, where there is none, or 1060864, where it is full; it takes words never read at three more sizes only |
| `Ext2File.File.Seek` | kernel/ext2.c:475-495 | the answer and the new position are the place asked for, with the cache of AfterSeek, stale or not; -EINVALID and no change past the end |
| `Ext2Session.Session` | kernel/ext2.c:426-495 | reads and seeks, in any order, of a file just opened: each answer, each byte that is found and the final position and cache are as specified; ReadsAreRight and SeeksAreRight say what the answers are |
| `Ext2Session.ReadsAreRight` | kernel/ext2.c:426-473 | in every such run each read up to the first stale seek returns what the pointers lead to from where the caller is, as many bytes as were asked for and there are; where the caller is follows from the calls alone: the last place sought and not refused, and what was read since |
| `Ext2Session.SeeksAreRight` | kernel/ext2.c:475-495 | in every run a seek is answered with the place asked for, which is the position from then on, or refused past the end |
| `Ext2Session.PositionIsKnown` | kernel/ext2.c:426-495 | in every run the position of the file is where the caller is, after stale seeks too |
| `Ext2Session.EdgeIsKnown` | kernel/ext2.c:426-495 | and the caller can tell whether the page in the buffer is used up: what moved last was a read, and it ended on a page boundary |
| `Ext2Session.ReadsAreTheFile` | kernel/ext2.c:426-473 | reads alone return, together, what the pointers lead to from the start of the file, up to as many bytes as were asked for, however they are divided |
| `Ext2Session.SyncedUntilStale` | kernel/ext2.c:426-495 | along every run the cache is right up to the first stale seek and wrong right after it; a seek is stale if and only if it goes from the end of a read on a page boundary to somewhere in the page that begins there |
| `Ext2Session.StaleBytes` | kernel/ext2.c:482-487 | read one page, seek to 5000, read n bytes: the answer is the bytes at 904 |
| `Ext2Session.StaleIsKnown` | kernel/ext2.c:482-487 | that seek is stale by what the caller knows |
| `Ext2Holes.FoundIsFileIff` | kernel/ext2.c:409-416 | what is found from one place to another is the file, with holes as zeros, on every device with this map of it, if and only if no pointer on the way to the blocks there is 0 |
| `Ext2Holes.LoadIsFileIff` | kernel/ext2.c:399-424 | the page that a load leaves in the buffer is that of the file, on every such device, if and only if it has no hole |
| `Ext2Holes.ReadIsFileIff` | kernel/ext2.c:426-473 | a read through a right or used-up cache returns the bytes of the file, on every such device, if and only if there is no hole among them |
| `Ext2Holes.AnswerIsFileIff` | kernel/ext2.c:426-495 | the same for every read before the first stale seek of a run of reads and seeks, at the place where the calls have led |
| `Ext2Holes.RawIsFileIff` | kernel/ext2.c:399-424 | and for the whole file |
| `Ext2Holes.SparseFile` | kernel/ext2.c:409-416 | a file of two blocks, the first a hole: the boot block is read for it |
| `Strings.StrEndPos` | kernel/lib.c:120-126 | the index of the terminator |
| `Strings.CharPos` | kernel/lib.c:100-115 | one more than the index of the next such character of the string, or 0 if and only if there is none |
| `Strings.Strncmp` | kernel/lib.c:92-95 | 0 if and only if the first n bytes agree or both strings end before; otherwise its sign is that of the first difference, where the end comes before any character and characters are signed |
| `Ext2Path.Scan` | kernel/ext2.c:197-212 | the inode field of the first entry of that name, unused or not; 0 if there is none |
| `Ext2Path.ReadInode` | kernel/ext2.c:168-176 | the inode in the table of its group, which TableIsRead describes |
| `Ext2Path.ReadDirectory` | kernel/ext2.c:185-194 | the bytes of the directory, as the pointers of its inode lead to them |
| `Ext2Path.StrGetInode` | kernel/ext2.c:163-217 | the answer from the directory on the device; it is the file of that name, or 0 if there is none, if and only if no unused entry hides it |
| `Ext2Path.FirstNamedIff` | kernel/ext2.c:202-212 | the first entry of a name is the file of that name if and only if no unused entry of the name is before the first one in use |
| `Ext2Path.FirstNamedIsFirst` | kernel/ext2.c:202-212 | of several entries of a name the code takes the first one |
| `Ext2Path.FindIsFirst` | kernel/ext2.c:202-212 | and ext2 the first one in use |
| `Ext2Path.NoneFound` | kernel/ext2.c:197-212 | 0 if there is none |
| `Ext2Path.HiddenFile` | kernel/ext2.c:202-212 | a directory of 24 bytes in which an unused entry hides a file |
| `Ext2Path.JoinComponents` | kernel/ext2.c:230-252 | the components are the path cut at its slashes |
| `Ext2Path.WalkInParts` | kernel/ext2.c:242-250 | a path walked in two parts ends where it ends walked at once |
| `Ext2Path.WalkOne` | kernel/ext2.c:242-250 | a path of one name is one lookup |
| `Ext2Path.GetFileInode` | kernel/ext2.c:219-257 | the fold of the lookups over the components from inode 2, 0 as soon as one is missing; inode 2 itself for "/" |
| `Ext2Path.WalkIsFollowIff` | kernel/ext2.c:242-250 | the lookups along a path lead to its file if and only if there is none or no file on the path is hidden; never to another file |
| `Format.Pow` | kernel/lib.c:128-136 | the power modulo 2^32 |
| `Format.ULen` | kernel/lib.c:152-162 | the number of digits |
| `Format.ValueOfDigits` | kernel/lib.c:255-260 | reading the digits gives back the number |
| `Format.UsualDigits` | kernel/lib.c:255-290 | the digits are 0 to 9 and a to f |
| `Format.NumeralIsUnique` | kernel/lib.c:247-305 | a number has only one numeral without leading zero |
| `Format.PrintUdec` | kernel/lib.c:294-305 | the numeral of the number, and its length |
| `Format.PutDec` | kernel/lib.c:247-267 | the text reads as the number if and only if it is not the least int, which prints as -./,),(-*,( |
| `Format.LeastNumber` | kernel/lib.c:255-260 | the digits of the least int |
| `Format.PutUhex` | kernel/lib.c:269-292 | 0x and exactly eight digits that read as the number; the answer is the number of characters if and only if the number is at least 2^28 |
| `KernelSemaphore.FirstComeFirstServed` | kernel/sem.c:4-18 | over every sequence of waits and signals those that went on are the first that came, as many as there were tokens; tokens are left only if nobody waits |
| `KernelSemaphore.Semaphore.Wait` | kernel/sem.c:4-10 | one wait |
| `KernelSemaphore.Semaphore.Signal` | kernel/sem.c:12-18 | one signal; a token goes to the first that waits |
| `KernelSemaphore.Semaphore.Broadcast` | kernel/sem.c:20-25 | all that wait go on, in order |

## Left out

- MemoryManager.Manager.Fork: requires a free PCB, a free frame and enough kernel frames, because the source does not check what `mm_mem_kalloc` and `mm_mem_alloc` answer there; the PCB is filled in after the tables, which nothing can observe.
- PageTables.Tables.MapFrame: requires a kernel frame when a table is missing, for the same reason; so do CopyEntry, CopyTable, CopyNonkernelPages and ForkPages.
- PageTables.Tables.DirNew: requires a free kernel frame, for the same reason.
- MemoryManager.Manager.CreateChildKernelStack: requires a free frame, for the same reason; what is put on the stack is a parameter.
- MemoryManager.Manager.Palloc: requires that the next page is not mapped (the source asserts it) and lies below the scratch page.
- MemoryManager.Manager.CopyForWrite: requires room for the table of the scratch page if there is none yet, for the same reason; CopyInto, CopyOnWrite, PageFault and UserStore require it only when a page must be copied.
- ProgramLoader.Load: is for user programs and for the idle process, which does not use its first page; LoadByProcess is for a process that has its first page. Processes without it and kernel tasks that load programs are not covered. Both require a free PCB and enough frames, which the source does not check. The page is unmapped after each use here and at the end there, which nothing can observe. What is on the stack and in each page is a parameter.
- FrameBitmap.Bitmap.MarkUsed: the regions lie within the bitmap; the source does not check that.
- FrameBitmap.SetUpBitmap: the same, and the memory map has an entry and its lengths add up to less than 2 GB, so that their sum in 32 bits does not wrap.
- FrameBitmap.FreeIsMemoryIff: entries start and end on page boundaries; RegionIsSetAsideIff is about the others.
- FrameBitmap.Bitmap.Seek: the bitmap has at least 96 bytes and addresses stay below 2 GB, as the C arithmetic on int needs.
- CopyOnWrite.LazyForkSimulatesEagerFork: runs in which share_page is applied to pages marked for copying, in which the kernel stores to pages the process does not own, or in which a process loads a program while another one has its first page, are not covered, because there it is false; KernelWriteSimulatesIff, SharedAfterForkIff and LoadByKeepsInvIff say exactly when, and FramesStayInPlace holds of those runs as well.
- CopyOnWrite.FramesAreOwned: runs in which share_page is applied to pages marked for copying, or in which a process loads a program while another one has its first page, are not covered, because there it is false (ShareKeepsInvIff, LoadByKeepsInvIff).
- MemoryManager.Manager.PageFault: addresses from 4 MB on; a fault below, such as that of a null pointer, ends the process in the source, by way of the kernel's own table. So for UserStore.
- MemoryManager.Manager.SharePage: addresses from 4 MB on and not the scratch page; below, the source writes to the kernel's own table.
- Loader.Loader.constructor: the links of all PCBs start as free; in the source those of a PCB are set when a process gets it.
- Loader.Loader.Spawn: requires a free PCB, which the source asserts.
- Scheduler.Scheduler.Load: requires a free slot, which the source asserts; Loader.RingIsBounded proves that there always is one.
- Descriptors.Devices.Close: for the last process and MAX_FD the cell is past the matrix, so that call is excluded; what a flush answers is left open.
- Descriptors.Devices.CloseAll: is for the running process, as loader_exit calls it.
- Pipe.Pair.Write: the processes that wait are a sequence; that the queues are threaded through the PCBs in this way is proved in Loader for wait queues in general. Blocking ends a call's segment, and a woken process goes on from the loop head.
- Pipe.Pair.Read: the user's buffer is writable; a call for 0 bytes does nothing.
- Memkrypt.RunsEnd: opening the file and the serial port succeeds, as does `read`, which answers 0 only at the end of the file; the counter `bytes` does not overflow.
- Ext2File.File.Read: requires that position plus size does not wrap (ClippedIff); otherwise the source reads past the file and its block list.
- Ext2Session.Session: the calls are those that Read and Seek allow; the user's buffers are writable.
- Ext2File.File.Seek: a seek that loads the page at the end of the file is covered where the words looked up there, which are past the last block and 0 as a rule, lead to blocks on the device; not for the sizes of EndIsPastListIff, for which the source indexes past the list or takes words that were never read.
- Ext2File.File.constructor: regular files, with blocks of 1024 bytes, whose blocks and lists are on the device; positions on the device are not taken modulo 2^32, so a device is taken to be below 4 GB. The list exists even for files of up to 12 blocks, which do not use it.
- Ext2Holes.FoundIsFileIff: the condition is about the map of the file; on one device a hole may read right by chance, so the statement is for all devices with that map.
- Ext2Path.GetFileInode: the path leads through directories of at most one page; the source does not check that they are directories.
- Ext2Path.StrGetInode: the directory is what the pointers of its inode lead to, which is the directory itself by RawIsFileIff; it is well formed (no record length that is too small), as the source does not check that, and has at most one page, as it asserts.
- Format.Pow: the base is not negative, as all its callers have it; the answer is the unsigned value.
- Format.PutDec: the opposite of the least int and its absolute value wrap around, as compilers for this machine make them.
- The console ring of kernel/con.c (adding, removing and switching consoles): it is again a circular doubly linked list, easier than that of the scheduler.
- Reading a program file into memory and freeing that memory (`run`, `free_run_resources`), and kernel tasks.
- The disk driver: a read is one step and succeeds; waiting for the disk and a busy drive are not modelled.
- Accessed and dirty bits, the TLB, the kernel's own pages below 4 MB, the stack layout of new tasks, boot code, descriptor tables and ports.
- Memory given out is not cleared by the source; its contents are arbitrary here too.
- The screen saver that closing a console may start from inside loader_exit.
- read_dir, FAT and floppy stubs, printf formats, VGA, keyboard, timers, debugging output and the demonstration tasks.
