# LuckOS in Dafny

LuckOS is a small x86 kernel. This project models the parts of it whose correctness rests on state and arithmetic rather
than on hardware, and proves what they are for:

- **Kernel heap** (`Machine`, `OrderedArray`, `KheapSpec`, `KheapTheorems`, `KheapMemory`, `KheapSteps`, `Kheap`). The boundary-tag
  allocator over byte memory: packed headers and footers, the index of holes sorted by size, best fit, page-aligned
  allocation, splitting, coalescing and expansion. `KheapSpec` says what an operation does to the blocks, `Kheap` is the
  class that does it byte by byte, and `KheapTheorems` proves what that means over every run.
- **Copy-on-write paging** (`CowSpec`, `CowTheorems`, `CowForks`, `CowFrames`, `Paging`). Page directories, the frame bitmap, the
  reference counts and the contents of the frames; faults, fork and release. The main theorem is that processes read exactly
  what they would read if fork copied every page at once, as long as the kernel's own stores stay private; and no frame is ever
  lost.
- **Scheduler** (`SchedulerSpec`, `SchedulerTheorems`, `SchedulerSteps`, `SchedulerExits`, `SchedulerReach`, `SchedulerSlices`, `Scheduler`),
  **mutex** (`Mutex`) and the **wait/exit rendezvous** (`ProcessWait`), as interleaved steps with program counters. A
  thread's exit is a sequence of such steps, with interrupts between them and an allocation among them, which may need the
  lock of the heap and, for its page faults, further ones.
- **Linked lists and hash table** (`LinkedList`, `HashTable`) over real heap nodes, with the rehash and the iterator.
- **Bitmap and id pool** (`Bitmap`, `IdPool`) on 32-bit words.
- **Disk image** (`DiskImage`, `NaiveFs`): the writer, the reader and the sector loop between them.
- **Keyboard ring** (`Keyboard`), filled by interrupts and drained by readers around any decoder.

Code that updates fields and arrays in place is a class whose methods are proved against functions on values; the theorems
are lemmas about those functions. Protocols with several threads are relations on states, and their theorems hold for every
interleaving. Failure paths that panic in the kernel are `None` or `false` results.

Where the code does not do what is expected of it, the model follows the code, and a lemma says exactly when it does:

- `schedule_thread_exit` marks the thread dead before `add_dead_task` lists it, with interrupts on and an allocation on the
  way. The exit is lost if and only if a context switch comes before the append: an interrupt's, or the yield at a lock found
  taken, be it that of the dead lists, that of the heap, or one a page fault in the heap takes (`ExitLostExactly`,
  `ExitFate`, `LostExactly`). A lost thread is never destroyed (`LostStaysLost`). Each kind is reached from the start of the
  kernel (`TickLosesExit`, `LockLosesExit`, `HeapLosesExit`).
- The lock of the dead lists is taken for good if and only if a dead thread is switched away from between its lock and its
  unlock and nobody alive is there too (`DiesWithLock`, `StuckExactly`); then no dead thread or process is destroyed any more
  (`StuckForGood`). A lost exit takes the locks of memory management it holds with it, and no others
  (`DiesWithMemory`, `MemoryStuckForGood`); without the heap's no exit gets as far as its append (`NoNodeWithoutHeap`). Both
  are reached (`TickTakesLockAway`, `TickTakesHeapAway`).
- `cond_var_wait` returns with the lock released, and the cleaner releases it once more. So the lock of the dead lists
  excludes throughout a run if and only if the cleaner never leaves its wait in it (`OwnedStep`, `ExcludesExactly`); two
  threads inside are reached in `TwoInside`.
- With two threads of one process in `process_wait`, the second overwrites the first's registration, and the first can
  sleep beside the record it asked for (`SecondWaiterLosesWake`, `ExitWakesExactly`).
- The registration outlives the wait, even with one thread: `process_exit` then queues a thread that is not asleep, or passes
  on a node that was never set (`StrayWakes`, `WakeFindsSleeperExactly`). Queueing a thread keeps the ready queue right if
  and only if it was waiting (`WakeKeepsExactly`).
- `naive_fs_read_data` clamps the length to the file's size whatever the start. On every mounted disk the bytes are determined
  by the file if and only if the range stays inside it (`ReadIsOfTheFile`); past it comes the next file (`ReadRunsOn`).
- `kheap_expand` compares a sum that may wrap (`ExpandCheckWraps`, `GigabyteRequestWraps`), and its rounding wraps for
  requests near 4 GB, for which an alloc may never end (`ExtensionExactly`, `NothingAdded`).
- `enable_paging` leaves supervisor stores free to ignore the read-only bit; such a store stays private exactly if nobody
  else maps the frame or the byte does not change (`SupervisorStore`). Copy-on-write is eager copying up to the first store
  that does not (`RunRefines`), and a fork is enough to get there (`KernelStoreShows`).
- An exhausted id pool returns -1 through an 8-bit bool, which reads as true (`TruthyWithoutId`).
- `linked_list_insert_to_head` inserts after the head.

## Model

| member | source | states |
|---|---|---|
| OrderedArrays.OrderedArray.Insert | src/utils/ordered_array.c:17-35 | the contents become the old ones with the item after all that do not sort after it; a full array reports failure and keeps what it has |
| OrderedArrays.InsertedSorted | src/utils/ordered_array.c:23-32 | inserting keeps the array sorted by the comparator |
| OrderedArrays.InsertedDistinct | src/utils/ordered_array.c:23-32 | inserting adds exactly the item, and no duplicate arises |
| OrderedArrays.RemovedSorted | src/utils/ordered_array.c:45-56 | removing takes exactly one item out and keeps the order |
| OrderedArrays.OrderedArray.Get | src/utils/ordered_array.c:37-43 | the item at the index, 0 outside |
| OrderedArrays.OrderedArray.Remove | src/utils/ordered_array.c:45-56 | the contents without the item at the index; an index outside is refused |
| OrderedArrays.OrderedArray.RemoveElement | src/utils/ordered_array.c:58-76 | the first occurrence goes; success exactly if there is one |
| OrderedArrays.OrderedArray.FindElement | src/utils/ordered_array.c:78-87 | the first index of the element, or the size when it is absent |
| KheapSpec.FitPosIsLeast | src/mem/kheap.c:113-129 | the position chosen in a hole is the least acceptable one, and a hole is refused exactly if it has none |
| KheapTheorems.ExpansionSuffices | src/mem/kheap.c:140-163 | one expansion always makes room for an unaligned request, two for a page-aligned one, at any size whose expansion does not wrap |
| KheapTheorems.ExtensionExactly | src/mem/kheap.c:18-30 | the 32-bit expansion is the true one exactly up to 0xFFFFEFEF bytes, and is nothing exactly from 0xFFFFEFF0 to 0xFFFFFFEF |
| KheapTheorems.NothingAdded | src/mem/kheap.c:140-163 | such a request that fits nowhere fits nowhere after any number of expansions of a last hole, so alloc recurses for ever |
| KheapTheorems.AllocExpansions | src/mem/kheap.c:140-163 | so the recursion of alloc expands at most that often, while the expansion does not wrap |
| KheapSteps.OutOfRoomExactly | src/mem/kheap.c:140-163 | alloc is out of room if and only if no hole fits after any number of expansions that stays below the maximum |
| KheapSteps.OutOfRoomIsClose | src/mem/kheap.c:140-163 | and then the maximum is less than one expansion away, or less than two for a page-aligned request |
| KheapTheorems.AllocTheorem | src/mem/kheap.c:135-202 | alloc keeps the tiling, adds one live block of the requested size or up to one block's metadata more, page-aligned if asked, new among the live ones |
| KheapTheorems.AllocBestFit | src/mem/kheap.c:108-163 | alloc expands only while no hole has a place for the payload, then takes a smallest hole that has one, and the lowest place in it |
| KheapTheorems.AllocKeeps | src/mem/kheap.c:135-202 | alloc keeps the invariant and changes the live blocks by its own only |
| KheapTheorems.FreeTheorem | src/mem/kheap.c:204-237 | free keeps the invariant, the range and all other live blocks |
| KheapTheorems.PayloadsDisjoint | src/mem/kheap.c:183-201 | the payload of a live block overlaps no other block and no metadata |
| KheapSteps.HeapInMemory | src/mem/kheap.c:55-71 | what the invariant means byte by byte: each block has 9 bytes of header and 8 of footer around its payload, with size, magic number and hole flag where the code reads them |
| KheapSteps.HeapFillsRange | src/mem/kheap.c:204-237 | the blocks fill the range to its page-aligned end, no two holes meet, and the index lists nothing twice |
| KheapSteps.PayloadReads | src/mem/kheap.c:135-237 | what keeping the live payloads means for whoever owns one: every byte of it reads as before |
| KheapTheorems.ReleaseUndoesSplit | src/mem/kheap.c:169-237 | releasing what was just split restores the very same blocks, front and tail holes merged back |
| KheapTheorems.AllocFreeRoundTrip | src/mem/kheap.c:135-237 | freeing what alloc returned restores the blocks, up to the expansions it made; exactly, if it made none |
| KheapTheorems.StepKeeps | src/mem/kheap.c:135-237 | each operation keeps the invariant and changes the live blocks by exactly its own |
| KheapTheorems.RunKeeps | src/mem/kheap.c:135-272 | over every run: tiling, no adjacent holes, page-aligned end, and live blocks equal to allocations minus frees |
| KheapTheorems.FewHoles | src/mem/kheap.c:218-234 | the holes outnumber the live blocks by at most one, and only if the last block is a hole |
| KheapTheorems.HolesOverRun | src/mem/kheap.c:135-237 | so over every run the index needs at most one entry more than there are live blocks |
| KheapTheorems.RunKeepsUnfreed | src/mem/kheap.c:135-237 | a block nobody frees stays live, where it is and as large as it is, over every run |
| KheapTheorems.EverythingFreed | src/mem/kheap.c:383-397 | once allocations and frees balance, in any order, the heap is a single hole over the whole range |
| KheapTheorems.ExpandCheckWraps | src/mem/kheap.c:32-35 | exactly when the maximum check accepts an end that is past the maximum |
| KheapTheorems.GigabyteRequestWraps | src/mem/kheap.c:25-37 | a one-gigabyte request does so with the kernel's addresses |
| Kheaps.Kheap.RoomForLive | src/utils/ordered_array.c:17-21 | while the index has two slots more than there are live blocks, every alloc and free finds the room it requires |
| Kheaps.Kheap.constructor | src/mem/kheap.c:79-104 | after create_kheap the invariant holds, with one hole over the range behind the index |
| Kheaps.Kheap.MakeBlock | src/mem/kheap.c:55-71 | header and footer are written, each naming the other, and no other byte changes |
| Kheaps.Kheap.KheapExpand | src/mem/kheap.c:25-37 | the end moves by the request rounded up to pages, or the maximum is respected |
| Kheaps.Kheap.FindHole | src/mem/kheap.c:108-133 | the first index entry that fits is a smallest hole that fits, at its least position; -1 exactly means none fits |
| Kheaps.Kheap.FindAligned | src/mem/kheap.c:117-125 | the page loop finds the specified position of one hole, or that there is none |
| Kheaps.Kheap.Expand | src/mem/kheap.c:142-159 | the bytes and the index after an expansion hold the grown tiling, even though a hole is resized while indexed; live payloads keep their bytes |
| Kheaps.Kheap.Place | src/mem/kheap.c:165-201 | bytes and index hold the split tiling; live payloads keep their bytes |
| Kheaps.Kheap.Alloc | src/mem/kheap.c:135-202 | the heap in memory makes the specified allocation, fails exactly if it is out of room however often it expands, and changes no live payload |
| Kheaps.Kheap.Kmalloc | src/mem/kheap.c:135-202 | the same with the bound on expansions discharged, as a step of a run; it fails only if one expansion, or two for a page-aligned request, would pass the maximum, and, without alignment, only if every hole is smaller than the request |
| Kheaps.Kheap.Free | src/mem/kheap.c:204-237 | the heap in memory makes the specified release, and changes no live payload; null does nothing |
| Kheaps.Kheap.MergeRight | src/mem/kheap.c:218-224 | the block takes in a hole on its right, whose index entry goes, and nothing else |
| Kheaps.Kheap.MergeLeft | src/mem/kheap.c:226-234 | the same on the left, reached through the footer |
| Kheaps.Kheap.StorePayload | src/utils/linked_list.c:85-86 | a client's store into memory it allocated leaves headers, footers and index intact |
| Kheaps.Kheap.ValidatePrint | src/mem/kheap.c:240-272 | the walk passes all its assertions and returns the number of live blocks |
| WordBits.SetOneBit | src/utils/bitmap.c:32-36 | setting a bit of a word changes that bit only |
| WordBits.ClearOneBit | src/utils/bitmap.c:38-42 | clearing a bit of a word changes that bit only |
| Bitmaps.Bitmap.SetBit | src/utils/bitmap.c:32-36 | the set of numbers gains the one |
| Bitmaps.Bitmap.ClearBit | src/utils/bitmap.c:38-42 | the set of numbers loses the one |
| Bitmaps.Bitmap.TestBit | src/utils/bitmap.c:44-48 | membership |
| Bitmaps.Bitmap.FindFirstFree | src/utils/bitmap.c:50-65 | the least number outside the set; failure only if all are in it |
| Bitmaps.Bitmap.AllocateFirstFree | src/utils/bitmap.c:67-75 | that number is added, or nothing changes |
| Bitmaps.Bitmap.Expand | src/utils/bitmap.c:83-102 | the larger bitmap holds the same set |
| IdPools.IdPool.Expand | src/utils/id_pool.c:41-51 | the size grows by one step up to the maximum and no less, ids in use stay |
| IdPools.IdPool.AllocateId | src/utils/id_pool.c:23-39 | the least free id, expanding once if there is none, or a refusal |
| IdPools.IdPool.FreeId | src/utils/id_pool.c:53-55 | that id is free again, no other |
| IdPools.AllocateKeeps | src/utils/id_pool.c:23-51 | an id handed out was not in use, is the least such and below the maximum |
| IdPools.AllocatesExactly | src/utils/id_pool.c:23-51 | an id is handed out if and only if one is free below the whole words of the bitmap, or one expansion adds such a word |
| IdPools.HeldOnce | src/utils/id_pool.c:23-55 | over every run and expansion, each id out is out once, and the ids out are those the bitmap marks |
| IdPools.TruthyWithoutId | src/utils/id_pool.c:26-28 | the result reads as true without an id exactly if the pool is full at its maximum |
| CowTheorems.MapPageKeeps | src/mem/paging.c:165-254 | a fault keeps the invariant and changes what is read only by a zero page where there was none |
| CowTheorems.StoreKeeps | src/mem/paging.c:138-162 | a store to a writable page changes one byte for one process |
| CowTheorems.ForkKeeps | src/mem/paging.c:330-413 | after a fork the child reads what the parent reads, and nobody else notices |
| CowTheorems.SharedIsReadOnly | src/mem/paging.c:384-394 | a frame mapped twice is read-only in both places |
| CowTheorems.UnmapMappers | src/mem/paging.c:270-291 | a release frees the frame exactly if nobody else maps it, and otherwise lowers its count by one |
| CowTheorems.UnmapRangeKeeps | src/mem/paging.c:293-312 | releasing a range keeps the invariant and takes away exactly those pages of that process |
| CowTheorems.StepRefines | src/mem/paging.c:165-413 | each operation on shared memory is the same operation on eagerly copied memory, except exactly for a kernel store that is not private |
| CowTheorems.RunRefines | src/mem/paging.c:165-413 | over any interleaving of loads, stores, forks, releases and kernel stores, every process reads what it would read had each fork copied everything, as long as each kernel store is private, and no longer |
| CowTheorems.UserRunIsPrivate | src/mem/paging.c:165-413 | so without kernel stores it always does |
| CowTheorems.RunCounts | src/mem/paging.c:104-136 | over every run, a mapped frame is in use with one mapper more than its count, read-only when shared; a free frame has neither mapper nor count |
| CowTheorems.SupervisorStore | src/mem/paging.c:88-93 | exactly when a store that ignores the read-only bit is still private |
| CowForks.ForkSucceedsExactly | src/mem/paging.c:330-413 | a fork panics exactly if fewer frames are free than its directory and the parent's user page tables, whatever these hold; frames that kernel-heap pages take when first touched are not counted |
| CowForks.FaultSucceedsExactly | src/mem/paging.c:165-254 | a fault panics exactly if fewer frames are free than a missing table and a missing or shared page need |
| CowForks.StepSucceedsExactly | src/mem/paging.c:165-413 | a store succeeds if and only if the page is writable or the frames of its fault are free; a load or a kernel store, if and only if the page is there or they are; a release always |
| CowForks.SpaceReleased | src/task/process.c:126-131 | releasing the user space of a process frees exactly the frames of its user page tables and those that only its pages map |
| CowFrames.NoFrameLost | src/mem/paging.c:165-413 | over every run, a frame is in use if and only if it holds a page, a page table or a directory of some process, or was set aside from the start |
| CowForks.EagerMeans | src/mem/paging.c:330-413 | the eager memory byte by byte: what each operation makes readable, to whom, and with which bytes |
| CowForks.UserSpaceIs | src/mem/paging.c:367 | the user pages are those from 4 MB to 3 GB, in 32 MB of frames |
| CowForks.ForkExposes | src/mem/paging.c:384-394 | right after a fork, a kernel store into the parent's page that changes it is read by the child |
| CowForks.KernelStoreShows | src/task/process.c:267-269 | from the start of paging: touch, fork, kernel store; the child reads the byte where eager copying has a zero |
| Pagings.Paging.AllocatePhyFrame | src/mem/paging.c:64-73 | the least free frame, or -1 when there is none |
| Pagings.Paging.ChangeCowFrameRefcount | src/mem/paging.c:104-136 | the count changes by the delta, its entry goes at zero, and the count before is returned |
| Pagings.Paging.MapPage | src/mem/paging.c:165-254 | the fault handler in place makes the specified step, or panics exactly if no frame is left |
| Pagings.Paging.UnsharePage | src/mem/paging.c:217-251 | its copy-on-write branch, with the copy before the remapping |
| Pagings.Paging.ReleasePage | src/mem/paging.c:270-291 | one page is released as specified |
| Pagings.Paging.ReleasePages | src/mem/paging.c:293-312 | the nested loops, skipping absent tables, release exactly the range |
| Pagings.Paging.ReleasePagesTables | src/mem/paging.c:314-323 | the page tables of a range are released |
| Pagings.Paging.ReleaseUserSpace | src/task/process.c:126-131 | all user pages and tables of the process go |
| Pagings.Paging.SwitchTo | src/mem/paging.c:95-98 | another process becomes the current one, and no memory changes |
| Pagings.Paging.LoadByte | src/mem/paging.c:138-162 | a load reads the byte of the process's own view, faulting the page in first; it fails exactly if the page is absent and the frames of the fault are not free |
| Pagings.Paging.StoreByte | src/mem/paging.c:138-162 | a store writes the byte into the process's own view and no other, faulting first if it must; it fails exactly if the page is not writable and the frames of the fault are not free |
| Pagings.Paging.KernelStoreByte | src/mem/paging.c:88-93 | a store in supervisor mode is the specified step, faulting only for an absent page |
| Pagings.Paging.CloneCrtPageDir | src/mem/paging.c:330-413 | the loops over tables and entries make the specified fork, or panic exactly if frames run out |
| Pagings.Paging.CloneTables | src/mem/paging.c:361-402 | its loop over the user page tables makes the specified ones, or fails exactly if the frames run out |
| Pagings.Paging.CloneTable | src/mem/paging.c:367-402 | one table is copied, both sides read-only, each present entry counted once |
| SchedulerTheorems.SwitchKeeps | src/task/scheduler.c:227-258 | a context switch keeps status and queue in agreement |
| SchedulerTheorems.StepKeeps | src/task/scheduler.c:114-339 | so does every step, interrupts and the cleaner's included: ready threads are in the queue once, only the current one runs, the idle thread is not queued, and who is on the dead list has appended itself |
| SchedulerTheorems.RunKeeps | src/task/scheduler.c:114-339 | and every run |
| SchedulerSpec.CleanerCanRun | src/task/scheduler.c:212-217 | a dead current thread leaves a cleaner that is ready or waits to be notified, and once it has notified, a ready one |
| SchedulerTheorems.ExitSwitchKeeps | src/task/scheduler.c:337-338 | the last switch of an exit never takes from an empty queue and keeps the invariant |
| SchedulerTheorems.WakeKeepsExactly | src/task/scheduler.c:288-296 | queueing a started thread keeps the invariant if and only if it was waiting |
| SchedulerExits.ExitLostExactly | src/task/scheduler.c:325-339 | a step loses an exit if and only if the thread has not appended itself and an interrupt switches, or it finds the lock of the dead lists, of the heap or of a page fault taken |
| SchedulerExits.ExitFate | src/task/scheduler.c:325-339 | over a run from the marking to the switch: the thread is on the dead list if and only if the append came before, and then the locks of the dead lists and of the heap were free when tried |
| SchedulerExits.LostExactly | src/task/scheduler.c:325-339 | over every run, the lost threads are exactly those that lost their exit in it, or were lost before |
| SchedulerReach.TickLosesExit | src/task/scheduler.c:333-334 | reached from the start: a timer tick after the marking loses the exit, with the lock free |
| SchedulerReach.LockLosesExit | src/task/scheduler.c:212-217 | reached from the start: the lock, held by the preempted cleaner, loses the exit |
| SchedulerReach.HeapLosesExit | src/mem/kheap.c:290-295 | reached from the start: with the dead lists' lock free and no interrupt after the marking, the heap's lock, held by a preempted thread, loses the exit and the dead lists' lock with it |
| SchedulerExits.LostStaysLost | src/task/scheduler.c:114-155 | over every run such a thread stays dead, unlisted and undestroyed |
| SchedulerExits.ListedUntilTaken | src/task/scheduler.c:114-155 | a listed thread stays listed, off the processor, until the cleaner takes the list and destroys it |
| SchedulerExits.DiesWithLock | src/task/scheduler.c:212-217 | a step takes the lock away for good if and only if it switches away from a dead thread inside, and everyone else inside is dead |
| SchedulerExits.StuckExactly | src/task/scheduler.c:205-217 | so over every run the lock ends up taken for good if and only if such a step was made |
| SchedulerExits.StuckForGood | src/task/scheduler.c:205-217 | from then on, over every run, the lock stays taken and the dead lists never change |
| SchedulerReach.TickTakesLockAway | src/task/scheduler.c:212-217 | reached from the start: a tick between lock and append does this |
| SchedulerReach.TickTakesHeapAway | src/utils/linked_list.c:84-88 | reached from the start: a tick inside the allocation takes the heap's lock away as well |
| SchedulerExits.DiesWithMemory | src/mem/kheap.c:290-295 | a step takes a lock of memory management away if and only if it loses the exit of its holder |
| SchedulerExits.MemoryStuckForGood | src/sync/yieldlock.c:11-23 | and it stays taken, by that thread, over every run |
| SchedulerExits.NoNodeWithoutHeap | src/task/scheduler.c:212-214 | once that lock is the heap's, no exit gets its list node any more |
| SchedulerExits.OwnedStep | src/task/scheduler.c:122-127 | a step from a state where the lock excludes keeps that if and only if it is not the cleaner leaving its wait |
| SchedulerExits.ExcludesExactly | src/sync/cond_var.c:10-24 | over every run, the lock excludes throughout if and only if the cleaner never leaves its wait |
| SchedulerReach.TwoInside | src/task/scheduler.c:122-127 | reached from the start: the cleaner and an exiting or reaping thread are inside together |
| SchedulerReach.ExactlyFromBoot | src/task/scheduler.c:114-339 | from the start of the kernel: exactly which threads are lost, when the lock is gone, and whether it has always excluded |
| SchedulerTheorems.StepMovesUp | src/task/scheduler.c:227-258 | a switch moves a ready thread up one place, or makes it current; no other tail-appending step moves it |
| SchedulerTheorems.WaitsItsTurn | src/task/scheduler.c:227-318 | after any mix of such steps a thread has moved up one place per switch |
| SchedulerTheorems.TurnComes | src/task/scheduler.c:227-318 | the thread at index k becomes current with switch number k+1 |
| SchedulerSlices.InterruptSwitchesExactly | src/task/scheduler.c:260-280 | an interrupt switches, to the head of the queue, if and only if preemption is allowed, a thread is ready, and the slice is used up, the keyboard asks or a switch was asked for |
| SchedulerSlices.TicksAdd | src/interrupt/timer.c:18-25 | over every run of one thread, each timer tick adds one to its ticks, and nothing else does; a switch is asked for exactly by the keyboard or the tick that uses up the slice |
| SchedulerSlices.SliceExactly | src/interrupt/timer.c:18-25 | so a thread with a fresh slice and no keyboard interrupt is switched away from by a tick if and only if it is at least the one with the number of its priority, preemption is allowed and a thread ready |
| SchedulerSlices.SliceEnds | src/interrupt/timer.c:18-25 | while ticks find preemption allowed and a thread ready, the current thread gets fewer of them than its slice has left, or is switched away from |
| SchedulerSlices.SlicesAreFull | src/task/scheduler.c:240-241 | over every run, whoever is not running has no ticks and no request to reschedule, and so starts with a full slice |
| SchedulerSlices.PreemptionNests | src/task/scheduler.c:260-280 | disabling preemption holds off every interrupt, and enabling it takes exactly that back |
| SchedulerSlices.YieldGoes | src/task/scheduler.c:306-318 | a yield goes to the head of the queue, or the idle thread; who yields ends up behind all others |
| SchedulerSlices.BlockGoes | src/task/scheduler.c:320-323 | who blocks is waiting and off the queue |
| SchedulerSlices.WakesGo | src/task/scheduler.c:288-304 | the two ways back to the queue: behind all others, and right behind the first |
| SchedulerSlices.StartsGo | src/task/scheduler.c:288-296 | a created thread is off the queue until it is started, then behind all others, otherwise as created |
| SchedulerSlices.LocksTurn | src/task/scheduler.c:114-217 | which steps take and release the lock of the dead lists and those of memory management; no other step does |
| SchedulerSlices.ListsOnlyGrow | src/task/scheduler.c:205-217 | over every run without the cleaner's turn, the lists of dead threads and processes keep what they have, in order |
| Schedulers.Scheduler.DoContextSwitch | src/task/scheduler.c:227-258 | the update in place is the specified switch |
| Schedulers.Scheduler.Schedule | src/task/scheduler.c:260-280 | a switch only if preemption is allowed, asked for and possible |
| Schedulers.Scheduler.TimerTick | src/interrupt/timer.c:14-26 | the tick, as TicksAdd and InterruptSwitchesExactly describe it |
| Schedulers.Scheduler.KeyboardTick | src/driver/keyboard.c:104-105 | the keyboard's request to reschedule, then the same |
| Schedulers.Scheduler.ScheduleThreadYield | src/task/scheduler.c:306-318 | a yield, with the idle thread queued when nothing else is |
| Schedulers.Scheduler.BlockCurrent | src/task/scheduler.c:320-323 | the current thread waits and another runs |
| Schedulers.Scheduler.AddThreadNodeToSchedule | src/task/scheduler.c:288-296 | at the tail, ready unless dead |
| Schedulers.Scheduler.AddThreadNodeToScheduleHead | src/task/scheduler.c:298-304 | behind the head, despite the name |
| Schedulers.Scheduler.CondVarNotify | src/sync/cond_var.c:26-33 | the first waiter, if any, is queued |
| Schedulers.Scheduler.LockDead | src/task/scheduler.c:212-213 | the lock is taken, or another thread runs |
| Schedulers.Scheduler.TakeMemory | src/sync/yieldlock.c:11-15 | a lock of memory management is taken, or another thread runs |
| Schedulers.Scheduler.FaultIn | src/mem/paging.c:256-264 | a page fault of the allocation gets through, or another thread runs; without interrupts the former if and only if the locks it needs are free |
| Schedulers.Scheduler.FetchNode | src/mem/kheap.c:290-295 | the same of the whole allocation, with any page faults in it |
| Schedulers.Scheduler.ScheduleThreadExit | src/task/scheduler.c:325-339 | with any interrupts and page faults on the way another thread runs in the end, and the result says whether the exited one is on the dead list; without interrupts that is so if and only if the locks of the dead lists, of the heap and of the page faults are free |
| Mutexes.StepKeeps | src/sync/mutex.c:13-41 | every step of every thread keeps the mutex invariant |
| Mutexes.MutualExclusion | src/sync/mutex.c:13-41 | at most one thread is between lock and unlock, in any interleaving |
| Mutexes.NoLostWakeup | src/sync/mutex.c:15-40 | with both locks free and sleepers queued, a woken thread has yet to retry, and its next two steps acquire the mutex |
| Mutexes.SleepersAreQueued | src/sync/mutex.c:18-21 | every sleeper is in the queue, and while there is one, the mutex is held or a wakeup is on its way |
| Mutexes.FirstInFirstWoken | src/sync/mutex.c:18-36 | in any interleaving, who went to sleep first is woken first |
| ProcessWait.RunInv | src/task/process.c:230-325 | over every interleaving: the parent's lock is taken exactly while one thread or child is inside, records are only of children that stored them, and records are conserved |
| ProcessWait.WaitsForChildren | src/task/process.c:230-263 | over every run, a thread past its check waits for a child of its parent, or for any |
| ProcessWait.RefusedExactly | src/task/process.c:231-235 | a wait is refused if and only if it is for one pid that is no child at its check; it then returns and the lock is free |
| ProcessWait.SleepsExactly | src/task/process.c:237-263 | a wait sleeps if and only if what it waits for is not in the table, and is then the one registered, with the lock free |
| ProcessWait.ReapsWhatItWaitsFor | src/task/process.c:249-277 | a wait takes the record of the child it is for, or any if it is for any, as the table has it, and the record is gone |
| ProcessWait.TakenOnce | src/task/process.c:249-256 | each exit is taken by at most one wait, in the order of the exits of that pid, and what is not taken is in the table |
| ProcessWait.ExitsReachWaits | src/task/process.c:230-325 | no exit is lost: over every interleaving, the codes a child has exited with are, in order, those taken by waits, the one in the table and the one on its way there |
| ProcessWait.ReapedIsStored | src/task/process.c:265-277 | the code a wait hands back is the one that child's exit stored |
| ProcessWait.SleeperHasNoRecord | src/task/process.c:258-263 | with one waiting thread at a time, a sleeper has no record it could take, except while the child that stored it is about to wake it |
| ProcessWait.SecondWaiterLosesWake | src/task/process.c:238-263 | a reachable state in which a second waiter has cost the first its wakeup |
| ProcessWait.ExitWakesExactly | src/task/process.c:317-322 | an exit wakes a sleeping thread if and only if that one registered last, for that pid or for any |
| ProcessWait.WakeFindsSleeperExactly | src/task/process.c:317-322 | over every run, the wake of an exit changes a thread of the parent if and only if the registered one is asleep; otherwise none ever registered, or it is outside the wait, entering it, or woken already |
| ProcessWait.StrayWakes | src/task/process.c:237-263 | reachable with one waiting thread: a wake of a thread woken already, of one whose wait is over, and of a node never set |
| LinkedLists.LinkedList.Append | src/utils/linked_list.c:18-33 | the chain gains the node at its end |
| LinkedLists.LinkedList.Insert | src/utils/linked_list.c:36-59 | the chain gains the node after the given one, or in front |
| LinkedLists.LinkedList.InsertToHead | src/utils/linked_list.c:61-63 | the node lands behind the head |
| LinkedLists.LinkedList.Remove | src/utils/linked_list.c:65-82 | the chain loses the node, whose own links stay |
| LinkedLists.LinkedList.RemoveEle | src/utils/linked_list.c:90-99 | the first node with that payload goes, if there is one |
| LinkedLists.LinkedList.Move | src/utils/linked_list.c:101-107 | the chain is taken over, the source is empty |
| LinkedLists.LinkedList.Concate | src/utils/linked_list.c:109-123 | the two chains in sequence, the source is empty |
| LinkedLists.Join | src/utils/linked_list.c:117-119 | two chains whose ends point at each other are one chain |
| HashTables.HashTable.constructor | src/utils/hash_table.c:17-24 | an empty map in 16 buckets |
| HashTables.HashTable.Get | src/utils/hash_table.c:73-81 | the value bound to the key, null when there is none |
| HashTables.HashTable.Contains | src/utils/hash_table.c:83-86 | whether the key is bound |
| HashTables.HashTable.Put | src/utils/hash_table.c:88-111 | the map with the key rebound, the old value returned, the buckets doubled exactly past three quarters, and no more than three quarters afterwards |
| HashTables.HashTable.Remove | src/utils/hash_table.c:141-156 | the map without the key, the old value returned |
| HashTables.HashTable.Clear | src/utils/hash_table.c:26-40 | the empty map in the same buckets |
| HashTables.HashTable.Expand | src/utils/hash_table.c:113-139 | the same map in twice the buckets, each node in the bucket of its key, in the old order |
| HashTables.RehashBucket | src/utils/hash_table.c:121-133 | one old bucket is emptied into the new ones, node by node |
| HashTables.FlatCovers | src/utils/hash_table.c:60-111 | the buckets together hold each key of the map once, and as many nodes as the map has bindings |
| HashTables.OnlyHolds | src/utils/hash_table.c:130-131 | the nodes of a key's residue class are exactly what its bucket must hold |
| HashTables.TableIterator.HasNext | src/utils/hash_table.c:182-184 | whether a binding is left |
| HashTables.TableIterator.Next | src/utils/hash_table.c:186-214 | the next binding in bucket order, null after the last; the search always finds a bucket |
| HashTables.Enumerate | src/utils/hash_table.c:255-274 | a full iteration lists every binding exactly once, and one call more returns null |
| DiskImage.WriteImage | user/disk_image_writer.c:49-95 | the image has the count, every record and every file's data where its record says |
| DiskImage.WriteRecord | user/disk_image_writer.c:57-77 | one record: the padded name, size and offset, behind what was written before |
| DiskImage.RecordMeans | user/disk_image_writer.c:57-77 | a record byte by byte: the name, its terminator, the size at 64 and the offset at 68 |
| DiskImage.ImageMeans | user/disk_image_writer.c:49-95 | the layout: the count, 72 bytes for each record, then the data of the files one after the other, up to the end |
| HardDisk.ReadHardDisk | src/driver/hard_disk.c:22-42 | the sector loop delivers exactly the bytes of the range and touches no other byte of the buffer |
| NaiveFs.Strcmp | src/common/stdlib.c:32-46 | zero exactly for equal strings, and -1 exactly if the first difference is between two characters, the first the lesser; a string that begins the other gives 1 on either side |
| NaiveFs.NaiveFs.constructor | src/fs/naive_fs.c:78-97 | count and records are in memory as on the disk |
| NaiveFs.MountedMeans | src/fs/naive_fs.c:78-97 | where the image lies on the disk: at sector 2057 |
| NaiveFs.NaiveFs.StatFile | src/fs/naive_fs.c:16-25 | the size of the first file of that name, -1 exactly if there is none |
| NaiveFs.NaiveFs.ReadData | src/fs/naive_fs.c:52-73 | the clamped number of bytes from the start on; the file's own bytes whenever the range is inside the file |
| NaiveFs.AnswerMeans | src/fs/naive_fs.c:52-73 | what that delivers, in bytes of the disk: as many as asked for or as the first file of that name has, from its start on |
| NaiveFs.ReadIsOfTheFile | src/fs/naive_fs.c:67-72 | on every disk holding files, a read of a file is the same on all disks with that file in that place if and only if it is empty or stays inside |
| NaiveFs.ReadRunsOn | src/fs/naive_fs.c:67-72 | a read past the end of a file delivers its rest and the start of the next one |
| NaiveFs.RoundTrip | user/disk_image_writer.c:49-95 | write, mount, stat and read: the size and exactly the bytes of the range come back |
| Keyboards.BufferQueue.Enqueue | src/driver/keyboard.c:31-41 | a bounded FIFO gains the code, or refuses it at 1024 |
| Keyboards.BufferQueue.Dequeue | src/driver/keyboard.c:43-48 | it yields its oldest code |
| Keyboards.Keyboard.Interrupt | src/driver/keyboard.c:85-92 | an interrupt is the specified step, and takes all waiting readers off the list |
| Keyboards.Keyboard.ReadCharImpl | src/driver/keyboard.c:50-63 | codes are consumed up to the first character, -1 only when none is left |
| Keyboards.Keyboard.TryReadChar | src/driver/keyboard.c:65-80 | a reader joins the waiting list exactly if it gets -1, and gets -1 exactly if the pending codes mean no character |
| Keyboards.ReadFindsFirst | src/driver/keyboard.c:50-63 | a reader gets the first character the pending codes mean, and -1 exactly if they mean none |
| Keyboards.OneCode | src/driver/keyboard.c:50-63 | which codes mean a character: those with data, on the press of the key, and it is the low byte |
| Keyboards.WaitingMoves | src/driver/keyboard.c:65-92 | over every run, an event changes the waiting list so: an interrupt empties it, and a reader without a character joins at its end |
| Keyboards.StaysWaiting | src/driver/keyboard.c:65-92 | so over every run a reader that found nothing is on the list until the next interrupt, which wakes all on it |
| Keyboards.WaitsSince | src/driver/keyboard.c:65-92 | and who is on the list found nothing since the last interrupt |
| Keyboards.RunKeeps | src/driver/keyboard.c:50-92 | whatever the interleaving, the characters returned are those of decoding the consumed codes in one go |
| Keyboards.SameCodesSameChars | src/driver/keyboard.c:50-92 | two runs that consumed the same codes returned the same characters |
| Keyboards.NothingLost | src/driver/keyboard.c:31-41 | every code is accepted, in order, if and only if no interrupt finds the ring full |
| Keyboards.BlockedMeansEmpty | src/driver/keyboard.c:65-92 | while a reader waits there is nothing it could read |

## Left out

- Kheaps.Kheap.Alloc: requires that the unsigned sums of the request do not wrap and that the hole index has room for two more entries, which RoomForLive gives up to 131070 live blocks; a full index drops holes silently (src/utils/ordered_array.c:19), and wrapping is covered by ExpandCheckWraps, ExtensionExactly and NothingAdded only.
- Kheaps.Kheap.constructor: requires that memory from the heap's range on reads zero when first touched, so no header is mistaken for one past the end; page faults inside the heap are not modelled.
- Kheaps.Kheap.Free: requires a pointer alloc returned and not freed since, or null, as the source asserts by its magic numbers.
- Kheap: the heap lock, the supervisor and readonly flags and kheap_contract.
- Pagings.Paging.constructor: takes a bitmap in which the frame of the directory is marked, instead of init_paging, whose reservation of low frames is undone by bitmap_init (src/mem/paging.c:35-38); frame 0 counts as an ordinary frame that is never handed out there.
- Paging: the temporary windows through which a copied page, directory and table are written, the kernel's own page tables and pages, TLB reloads, and destroy_process, which passes a physical address where a frame number is expected (src/task/process.c:345). Each fault, fork and release is one step, and the reference counts are a map field; the hash table behind it is proved separately.
- Scheduler: the ready queue is a sequence; its list operations are proved in LinkedList. Register saving, the task state segment, the interrupt flag and main_thread_in_ready_queue.
- SchedulerTheorems.WaitsItsTurn: excludes add_thread_node_to_schedule_head, which overtakes the queue behind its head.
- SchedulerTheorems.RunKeeps: a woken thread is waiting; what queueing another one does is WakeKeepsExactly, and that it happens is ProcessWait.StrayWakes.
- SchedulerExits.ExitFate: each exchange on a lock, each release and each other step of an exit is one step, as is each turn of the cleaner between its locks; the retry of a lock found taken is the next try of the same step. A dead thread has no process, and what its page fault takes for a lock is the word at that offset from address 0; nothing is assumed of it at the start.
- CowForks.ForkSucceedsExactly: the frames of kernel-heap pages that clone_crt_page_dir and the count nodes touch first are not counted (src/mem/paging.c:125, 341, 365).
- KheapTheorems.ExpansionSuffices: over unbounded sums; ExtensionExactly says for which sizes these are the code's.
- Mutexes.StepKeeps: appending to the wait queue, marking the thread waiting and releasing the inner lock are one step; the code does not protect that window from a timer switch. The same holds in ProcessWait.
- ProcessWait.SleeperHasNoRecord: needs at most one thread of the parent in process_wait at a time; SecondWaiterLosesWake shows why. A wake that finds nobody asleep (StrayWakes) leaves the places of the parent's threads as they are; what it does to the ready queue is SchedulerTheorems.WakeKeepsExactly.
- ProcessWait: a pid is handed out again only after its last exit record has been taken, as the pool of pids ensures (src/task/process.c:344-348); the children's own locks, adoption of orphans, and the release of a process's resources at its exit.
- Yield lock and condition variable: as steps inside the protocols that use them, not as objects of their own.
- HashTable: hash_table_destroy and hash_table_print, and the overflow of the bucket count beyond 2^30 buckets; keys are natural numbers, values are pointers with null as 0.
- HashTables.TableIterator.Next: requires that the table has not changed since the iterator was made.
- Bitmaps.Bitmap.Expand: requires the new size not to be smaller; bitmap_expand would write past the new array otherwise (src/utils/bitmap.c:90-92).
- IdPools.IdPool.AllocateId: the missing return after a successful expansion is read as true, and the lock that a failed expansion leaves taken is not modelled (src/utils/id_pool.c:30-32).
- DiskImage.WriteImage: requires names of 1 to 63 bytes without a terminator inside, at most 256 files and less than 2 gigabytes in all; directory listing and the program's check of its own output.
- HardDisk.ReadHardDisk: requires the range to lie on the disk and not to be the empty range at address 0, for which the sector count wraps (src/driver/hard_disk.c:26).
- NaiveFs.NaiveFs.ReadData: requires the bytes asked for to lie on the disk; list_dir and write_data.
- Keyboard: the scancode table; the decoder is any function of its state and the scancode. Waking the readers taken off the list and the request to reschedule are the scheduler's.
- Boot code, descriptor tables, port input and output, the monitor and printf family, ELF loading, process_exec, user programs other than the image writer, and random numbers.
- Allocation failure of kmalloc inside the containers.
