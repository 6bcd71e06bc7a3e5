# A verified model of the Pintos-KAIST kernel

This project models the parts of a Pintos-KAIST kernel whose correctness is hardest to see from the
code: intrusive lists and their in-place merge sort, locks with nested priority donation, the
feedback-queue scheduler's fixed-point arithmetic, 64-bit division, hash tables, bitmaps, the heap, four-level
page tables, demand paging with swap, program loading, the file system, the parent/child handshake and
the reference counts behind file descriptors, heapsort, and integer printing and parsing.

`dafny verify dfyconfig.toml` checks everything.

## How it is organised

Each module follows one component of the kernel. Code that changes state in place is a `class` whose
methods carry the loops of the C functions; where a property spans many calls, the class has a value (a
`State`), each operation is also a function on that value, the methods are proved to compute that function,
and the property is proved of every run. Failures the C code cannot report (an `int` overflow, a use of freed
memory, a failed `ASSERT`) are explicit outcomes (`Overflow`, `Fault`), and the theorems say when they cannot occur.

| module | component |
|---|---|
| `ListOrder`, `KernelList` | `list.c`: doubly linked lists, splice, natural merge sort |
| `PriorityDonation` | `synch.c`, `thread_set_priority`: locks, donation records, the donation walk |
| `DonationSteps` | what each lock operation does to every thread and lock |
| `Mlfqs` | `fixed-point.c`, the MLFQS part of `thread.c`, `mlfqs_on_tick` |
| `Arithmetic`, `Bits` | `arithmetic.c`: 64-bit division from 32-bit division; bit operations |
| `Printing` | `format_integer`, `vsnprintf`, `atoi` |
| `PrintedFields` | the shape and value of a field in any base, and what `atoi` reads |
| `Sorting` | `heapify`, `sort`, `binary_search` |
| `HashTable` | `hash.c` |
| `Bitmaps` | `bitmap.c`: bits packed in words, first-fit allocation |
| `Malloc` | `malloc.c` over the page pool of `palloc.c` |
| `HeapCalls` | pages taken and given back, which block is handed out, `realloc` at its edges |
| `PageTable` | `mmu.c` |
| `Paging` | `vm.c`, `anon.c`, `uninit.c` |
| `FlatMemory` | the memory that paging is shown to be |
| `Loading` | both `load_segment`s, `lazy_load_segment`, the header arithmetic of `load` |
| `InodeIO`, `FileSystem` | `inode.c`, `directory.c`, `free-map.c`, `filesys.c` |
| `FileCalls` | when a create succeeds and what it writes |
| `Descriptors` | descriptor tables, `file.c`, the counts of `inode.c` |
| `DescriptorCalls` | what each call does to tables and handles |
| `ProcessWait` | fork, wait, exit and the freeing of thread blocks |
| `ProcessCalls` | whole calls of fork, exit and wait |
| `Wrappers` | the `Option` type |

## Where the code and its promises differ

Several natural promises are false of the code. In each case the code is modelled as it is and the exact
condition is proved.

- In what follows a fault is following a link to a block that was given back, whether or not its page is in use again.
  No thread ever leaves `all_list` (the removal at thread.c:411 is commented out), so a freed block stays linked in it.
  The next `thread_create` writes into the block of the thread created last, freed or not: fork, wait, fork is enough
  (`ProcessWait.ForkWaitForkFaults`; exactly when: `ForkFaultsIff`, `RunsSafe`). The feedback-queue scheduler's periodic
  walks read such blocks (`Mlfqs.ExitedThreadFaults`; exactly when: `StepOk`, `NoOverflowIff`).
- The ideal "no thread waits behind a lower holder" fails in three ways. A woken waiter that finds the lock taken queues up
  again without donating (`PriorityDonation.WaitersNotAlwaysCovered`). A waiter strictly lower than the holder leaves no
  record, and the holder may later release another lock (`ReleaseUncovers`) or lower its base (`LoweringUncovers`)
  and drop below it. `CoveredStepIff` and `RunsCoveredIff` say exactly which steps keep the ideal.
- The idle thread's `recent_cpu` is charged but never decays, so it overflows after 2^17 idle ticks
  (`Mlfqs.IdleMachineOverflows`); `Mlfqs.NoOverflowIff` shows that this is the only overflow.
- `thread_get_recent_cpu` overflows from a `recent_cpu` of about 1310.7 on (`Mlfqs.HundredfoldIff`). While 545
  threads of nice 20 are runnable every one of them gets there within 78 seconds, whatever the schedule
  (`Mlfqs.BusyReportsOverflow`, `ReportOverflows`).
- `sdiv64` misses one quotient, `umod64` and `smod64` cut the remainder to 32 bits (`Arithmetic.SDiv64`, `UMod64`, `SMod64`).
- With the grouping flag, printed numbers parse back exactly below 1000 (`Printing.RoundTripIff`).
- `vsnprintf` keeps its limit in an `int`, so sizes above 2^31 cut output that would fit, except those that are 2^31 modulo
  2^32 (`Printing.StoredIsLongestPrefix`, `LargeSizesCutIff`).
- A huge `malloc` wraps its page count and hands out a block that is too small
  (`Malloc.MallocOk`, `WrapFacts`, `RunsKeepHeap`).
- Clearing the dirty or accessed bit masks with 32 bits and destroys mappings above four gigabytes
  (`PageTable.DirtyKeepsFrameIff`, `AccessedKeepsFrameIff`).
- A segment of four gigabytes or more is cut when its counts are stored in 32 bits (`Loading.LoadsWholeIff`).
- A failed create keeps its data sectors marked (`FileSystem.FailedCreate`).
- The comment at directory.c:147-149 says reads are short only at the end of the file, but `inode_read_at` also stops when it
  has no memory for a bounce buffer; a lookup may then miss a name and `dir_add` overwrite one,
  even that of an open file (`FileSystem.ShortLookupIff`, `ShortScanOverwritesIff`, `CreateOkIff`, `ClashRun`).
- `fork` copies descriptors 0 and 1 without counting (`Descriptors.ForkOkIff`, `ForkedStdinDangles`, `DanglingRun`), `dup2`
  does not check its target (`SysDup2Ok`), an open on an exhausted table reads one entry past it and loses its handle
  (`Kernel.FindUnusedFd`, `SysOpenOk`), and a second exec loses the previous executable's handle (`ExecOk`).
- `fork` reports failure by looking at the child's exit status, which races with the child (`ProcessWait.ForkReportsIff`,
  `ForkReportsRace`), and a child whose parent exits without waiting for it is never freed; every other child still can be
  (`ProcessWait.OrphanNeverFreed`, `FreeableIff`).

## Model

| member | source | states |
|---|---|---|
| `KernelList.List.Insert` | pintos-kaist/lib/kernel/list.c:157-165 | the pointer updates keep both link directions consistent and put exactly this element at this place |
| `KernelList.List.Remove` | pintos-kaist/lib/kernel/list.c:239-244 | the list loses exactly that element, and the element after it is returned |
| `KernelList.List.Splice` | pintos-kaist/lib/kernel/list.c:171-190 | six link writes move a range before another element of the same list; the list stays well formed |
| `KernelList.List.SpliceFrom` | pintos-kaist/lib/kernel/list.c:171-190 | the same between two lists: the range leaves the one and stands before that element of the other, and both stay well formed |
| `KernelList.List.Reverse` | pintos-kaist/lib/kernel/list.c:308-317 | element i becomes element n-1-i, and the list stays well formed |
| `KernelList.List.FindEndOfRun` | pintos-kaist/lib/kernel/list.c:337-348 | the range up to the result is in order and the result starts a descent or is the end |
| `KernelList.List.InplaceMerge` | pintos-kaist/lib/kernel/list.c:356-373 | merging two adjacent runs by splicing gives one run, touches nothing else and is stable |
| `KernelList.List.Pass` | pintos-kaist/lib/kernel/list.c:385-405 | a pass that is repeated strictly reduces the number of natural runs; one that ends leaves none to merge |
| `KernelList.List.Sort` | pintos-kaist/lib/kernel/list.c:379-411 | for every list and strict weak order: terminates, well formed, same elements, sorted, stable, and equal to insertion sort |
| `KernelList.List.InsertOrdered` | pintos-kaist/lib/kernel/list.c:417-430 | the element goes before the first element it is less than |
| `ListOrder.InsertionPointIsFirst` | pintos-kaist/lib/kernel/list.c:417-430 | the insertion point is the first larger element, so equal elements keep arrival order |
| `ListOrder.InsertionSortIsStableSort` | pintos-kaist/lib/kernel/list.c:376-411 | the reference sort is sorted and stable |
| `ListOrder.StableSortUnique` | pintos-kaist/lib/kernel/list.c:376-411 | there is only one stable sort, so the reference pins down the result completely |
| `PriorityDonation.StepKeepsInv` | pintos-kaist/threads/synch.c:204-328 | every step keeps: priority is the maximum of base and recorded donations, donations are sorted, each recorded lock is held by the recipient |
| `PriorityDonation.RunsKeepInv` | pintos-kaist/threads/synch.c:204-328 | in every run, a thread that holds no lock is at its base priority |
| `PriorityDonation.NoLockNoDonation` | pintos-kaist/threads/synch.c:286-328 | releasing all locks returns all donations |
| `PriorityDonation.WalkEndsIff` | pintos-kaist/threads/synch.c:213-243 | the donation walk ends if and only if it meets no lock twice, and then within as many rounds as there are locks |
| `PriorityDonation.NoDeadlockWalkEnds` | pintos-kaist/threads/synch.c:213-243 | without a cycle of waiting threads the walk ends |
| `PriorityDonation.AcquireRaises` | pintos-kaist/threads/synch.c:213-243 | every holder on the chain ends at or above the acquirer and has a record of it |
| `PriorityDonation.BlockedBehindNoLower` | pintos-kaist/threads/synch.c:204-248 | a thread that blocks on a lock never waits behind a holder of lower priority |
| `PriorityDonation.CoveredStepIff` | pintos-kaist/threads/synch.c:204-328 | if no thread waits behind a lower holder, that is still so after a step if and only if the step meets a guard read off the state before it |
| `PriorityDonation.RunsCoveredIff` | pintos-kaist/threads/synch.c:204-328 | it is so throughout a run if and only if every step of the run meets its guard |
| `PriorityDonation.ReleaseWakesHighest` | pintos-kaist/threads/synch.c:127-143 | a release wakes the waiter of highest priority, the first among equals |
| `DonationSteps.AcquireHeldDoes` | pintos-kaist/threads/synch.c:204-248 | exactly the threads on the chain of holders, up to the first above the acquirer, get its priority and one record each; nobody else changes; their queues are sorted anew and the acquirer is queued |
| `DonationSteps.AcquireFreeDoes` | pintos-kaist/threads/synch.c:204-248 | a free lock is held afterwards and nothing else has changed |
| `DonationSteps.ResumeDoes` | pintos-kaist/threads/synch.c:82-97 | a woken thread takes a free lock, and otherwise queues up before the first lower waiter |
| `DonationSteps.TryAcquireDoes` | pintos-kaist/threads/synch.c:266-279 | a free lock is taken, a held one left alone |
| `DonationSteps.ReleaseDoes` | pintos-kaist/threads/synch.c:286-328 | the releaser keeps exactly its donations for other locks, its priority is the maximum of base and those, and the first of the highest waiters leaves the queue |
| `DonationSteps.SetPriorityDoes` | pintos-kaist/threads/thread.c:454-478 | the base is what was asked for, the priority the maximum of it and the donations, and nothing else changes |
| `DonationSteps.ChainIsWalk` | pintos-kaist/threads/synch.c:213-243 | round by round, the walk visits the threads in front of the acquirer |
| `PriorityDonation.WaitersNotAlwaysCovered` | pintos-kaist/threads/synch.c:82-97 | a five-step run in which a woken waiter finds the lock taken, queues up again without donating, and waits behind a lower holder |
| `PriorityDonation.ReleaseUncovers` | pintos-kaist/threads/synch.c:224-231 | a run in which a holder of two locks releases one and drops below a waiter on the other, which was lower when it came and left no record |
| `PriorityDonation.LoweringUncovers` | pintos-kaist/threads/thread.c:454-478 | a run in which a holder lowers its base priority below such a waiter |
| `PriorityDonation.Kernel.DonationWalk` | pintos-kaist/threads/synch.c:213-243 | the loop computes the walk that the theorems are about |
| `PriorityDonation.Kernel.LockAcquire` | pintos-kaist/threads/synch.c:204-248 | computes the acquire step and keeps the invariant |
| `PriorityDonation.Kernel.LockTryAcquire` | pintos-kaist/threads/synch.c:266-279 | succeeds exactly when the lock is free, and never donates |
| `PriorityDonation.Kernel.LockRelease` | pintos-kaist/threads/synch.c:286-299 | computes the release step and keeps the invariant |
| `PriorityDonation.Kernel.RemoveDonations` | pintos-kaist/threads/synch.c:301-314 | the records for that lock go, the others stay in order |
| `PriorityDonation.Kernel.RecalcPriority` | pintos-kaist/threads/synch.c:316-328 | the priority becomes base or the front donation, whichever is higher |
| `PriorityDonation.Kernel.SetBasePriority` | pintos-kaist/threads/thread.c:454-478 | computes the base-priority step and keeps the invariant under live donations |
| `Mlfqs.NoOverflowIff` | pintos-kaist/devices/timer.c:208-224 | with at most 545 runnable threads and nice in [-20, 20] a run neither overflows an `int` nor walks over a freed thread block, if and only if the idle thread is not ticked 2^17 times and no periodic walk or creation meets a freed block |
| `Mlfqs.RunBounds` | pintos-kaist/threads/thread.c:244-305 | load_avg stays in [0, R]; recent_cpu stays within 240R+20 plus the ticks since the last decay, and above -(40R+20) |
| `Mlfqs.StepOk` | pintos-kaist/threads/thread.c:244-321 | one tick, nice change, creation, exit or switch: exactly when it overflows, exactly when it reaches a freed block, and otherwise the bounds are kept |
| `Mlfqs.DecayBound` | pintos-kaist/threads/thread.c:295-303 | one decay brings 240R+120 back to 240R+20, exactly the slack a second of ticks uses |
| `Mlfqs.IdleMachineOverflows` | pintos-kaist/threads/thread.c:244-247 | when the initial thread blocks at boot and nothing else happens, the idle thread's counter does overflow |
| `Mlfqs.BusyReportsOverflow` | pintos-kaist/threads/thread.c:530-533 | whatever the schedule, while 545 threads of nice 20 are runnable nothing overflows or faults, and from the seventy-eighth second on `thread_get_recent_cpu` overflows for every live thread |
| `Mlfqs.BusyRunRises` | pintos-kaist/threads/thread.c:285-305 | behind it: each full second of such a run raises load_avg by at least 3 and every live thread's recent_cpu by at least 17, until the seventy-eighth |
| `Mlfqs.ExitedThreadFaults` | pintos-kaist/threads/thread.c:309-321 | a run in which a thread is created, exits and is freed, and the next periodic walk over all_list reads its block |
| `Mlfqs.ReportOverflows` | pintos-kaist/threads/thread.c:530-533 | such schedules exist: from boot, 545 threads that take turns every four ticks get there |
| `Mlfqs.LoadTracksExact` | pintos-kaist/threads/thread.c:253-263 | over any run load_avg is at most the exact weighted average and at most (60+4R)/2^14 below it |
| `Mlfqs.DecayTracksExact` | pintos-kaist/threads/fixed-point.c:44-57 | a decay is the exact formula less two truncations, with the error bounded |
| `Mlfqs.PriorityTracksFormula` | pintos-kaist/threads/thread.c:267-281 | the priority is 63 - recent_cpu/4 - 2*nice to the nearest, clamped |
| `Mlfqs.PriorityMonotone` | pintos-kaist/threads/thread.c:267-281 | more CPU or more nice never raises the priority |
| `Mlfqs.HundredfoldIff` | pintos-kaist/threads/thread.c:524-533 | the reported hundredfold value is right to a half exactly while the product fits 32 bits; always for load_avg |
| `Mlfqs.Scheduler.UpdateRecentCpuAll` | pintos-kaist/threads/thread.c:285-305 | the loop computes the decay step and reads no freed block |
| `Mlfqs.Scheduler.UpdateAllPriority` | pintos-kaist/threads/thread.c:309-321 | the loop computes the priority step and reads no freed block |
| `Mlfqs.DecayAllAt` | pintos-kaist/threads/thread.c:285-305 | that step decays every live ordinary thread once and no other, and changes nothing else |
| `Mlfqs.PriorityAllAt` | pintos-kaist/threads/thread.c:309-321 | that step recomputes the priority of every live ordinary thread once and changes nothing else |
| `Mlfqs.TickAt` | pintos-kaist/devices/timer.c:208-224 | what a whole tick does to each thread and to load_avg: charged if running, decayed every hundredth tick with the load of that very second, given a new priority every fourth from its new recent_cpu, and nothing else |
| `Mlfqs.SetNiceOk` | pintos-kaist/threads/thread.c:505-515 | a nice change sets that thread's nice and the priority that follows, and nothing else |
| `Mlfqs.CreateOk` | pintos-kaist/threads/thread.c:605-622 | a new thread has its creator's nice and recent_cpu and the priority that follows |
| `Mlfqs.PriorityInNumbers` | pintos-kaist/threads/thread.c:267-281 | the priority in plain numbers |
| `Mlfqs.Scheduler.MlfqsOnTick` | pintos-kaist/devices/timer.c:208-224 | one tick of the feedback-queue scheduler is the step that the run theorem is about |
| `Mlfqs.Scheduler.ThreadSetNice` | pintos-kaist/threads/thread.c:505-515 | changing nice recomputes the priority and nothing else |
| `Arithmetic.Nlz` | pintos-kaist/lib/arithmetic.c:40-67 | shifting by the result normalises the word |
| `Arithmetic.UDivLong` | pintos-kaist/lib/arithmetic.c:98-115 | the normalised estimate and its one correction give the quotient, with every DIVL in range |
| `Arithmetic.UDiv64` | pintos-kaist/lib/arithmetic.c:71-116 | for all 64-bit n and nonzero d, exactly floor(n/d) on both paths, with no trap |
| `Arithmetic.UMod64` | pintos-kaist/lib/arithmetic.c:120-123 | the remainder modulo 2^32; exact if and only if it fits 32 bits |
| `Arithmetic.SDiv64` | pintos-kaist/lib/arithmetic.c:127-133 | the truncated quotient if and only if not INT64_MIN / -1 |
| `Arithmetic.SMod64` | pintos-kaist/lib/arithmetic.c:137-140 | the truncated remainder if and only if it fits 32 bits |
| `Printing.FormatInteger` | pintos-kaist/lib/stdio.c:437-510 | the 64-character buffer is never overrun and the field is sign, prefix, padding and digits |
| `Printing.BufferBound` | pintos-kaist/lib/stdio.c:467-477 | a 64-bit value in any of the bases, grouped or not, needs at most 44 places |
| `Printing.RoundTrip` | pintos-kaist/lib/stdio.c:437-510 | for every int, flags, width and precision without grouping, the printed field denotes the int |
| `Printing.RoundTripIff` | pintos-kaist/lib/stdio.c:467-477 | with grouping, if and only if the magnitude is below 1000 |
| `PrintedFields.FieldIs` | pintos-kaist/lib/stdio.c:437-510 | in every base: sign and prefix just when they should be there, digits that read as the value, no zeros but those asked for, and the width made up with blanks or zeros on the side the flags say |
| `PrintedFields.DigitsRead` | pintos-kaist/lib/stdio.c:463-474 | the digits of any base, commas apart, read as the value |
| `PrintedFields.CommasAt` | pintos-kaist/lib/stdio.c:466-474 | commas stand after every group of digits from the right and nowhere else |
| `PrintedFields.BasesAre` | pintos-kaist/lib/stdio.c:127-130 | the bases have 10, 8 and 16 digits with their values, the prefix letters and the group sizes |
| `PrintedFields.NumberIs` | pintos-kaist/lib/stdlib.c:9-41 | what atoi reads: blanks of six kinds, a sign or none, digits in base ten, and whatever follows |
| `Printing.Atoi` | pintos-kaist/lib/stdlib.c:9-41 | returns the number denoted, without overflow exactly when it is an int, INT_MIN included |
| `Printing.PrintThenParse` | pintos-kaist/lib/stdio.c:24-49 | an int printed into memory with room for it and read back up to the terminator is the same int, if and only if nothing was grouped |
| `Printing.Vsnprintf` | pintos-kaist/lib/stdio.c:24-49 | the stored prefix and terminator, nothing written beyond, and the full length returned |
| `Printing.StoredIsLongestPrefix` | pintos-kaist/lib/stdio.c:24-49 | for every positive size, the prefix is the longest that fits if and only if the size less one survives conversion to `int` or the output is no longer than the converted value |
| `Printing.LargeSizesCutIff` | pintos-kaist/lib/stdio.c:24-49 | a size above 2^31 cuts some output that would have fitted and whose length is an `int`, if and only if it is not 2^31 modulo 2^32 |
| `Printing.NumberStops` | pintos-kaist/lib/stdlib.c:9-41 | what lies behind the terminator does not matter to the parser |
| `Sorting.Heapify` | pintos-kaist/lib/stdlib.c:93-123 | floating an element down extends the heap to it and permutes the prefix only |
| `Sorting.BuildHeap` | pintos-kaist/lib/stdlib.c:143-145 | every array becomes a heap of the same elements |
| `Sorting.RootIsMax` | pintos-kaist/lib/stdlib.c:147-151 | the first element of a heap is the largest |
| `Sorting.Sort` | pintos-kaist/lib/stdlib.c:131-152 | for every array and total preorder: ordered, and a permutation |
| `Sorting.BinarySearch` | pintos-kaist/lib/stdlib.c:184-207 | finds a match exactly when there is one |
| `Sorting.SortAndSearch` | pintos-kaist/lib/stdlib.c:131-207 | after sorting, a search answers whether the key was in the original array |
| `HashTable.MaskIsMod` | pintos-kaist/lib/kernel/hash.c:302-307 | masking with a power of two less one is the remainder |
| `HashTable.TurnOffKeepsTop` | pintos-kaist/lib/kernel/hash.c:326-338 | the power-of-two test is right, and turning off the lowest bit keeps the highest |
| `HashTable.RoundDown` | pintos-kaist/lib/kernel/hash.c:361-367 | the rounding loop ends at the largest power of two not above its start |
| `HashTable.OneBucketIsEnough` | pintos-kaist/lib/kernel/hash.c:302-324 | an equal element can only be in the bucket of the hash |
| `HashTable.Table.Init` | pintos-kaist/lib/kernel/hash.c:24-41 | a new table has four empty buckets and is valid |
| `HashTable.Table.Clear` | pintos-kaist/lib/kernel/hash.c:51-71 | the loop empties every bucket and leaves a valid empty table |
| `HashTable.EmptyTableOk` | pintos-kaist/lib/kernel/hash.c:24-71 | any power of two of empty buckets is a valid table with no element |
| `HashTable.Table.Find` | pintos-kaist/lib/kernel/hash.c:124-129 | finds an equal element if and only if there is one |
| `HashTable.Table.Rehash` | pintos-kaist/lib/kernel/hash.c:348-408 | the contents are unchanged, with or without memory; a completed rehash has fewer than four elements a bucket |
| `HashTable.Table.Insert` | pintos-kaist/lib/kernel/hash.c:92-104 | adds the element unless an equal one is present, which is returned; with memory the bucket count is then the best one |
| `HashTable.Table.Replace` | pintos-kaist/lib/kernel/hash.c:108-121 | the new element takes the place of an equal one |
| `HashTable.Table.Delete` | pintos-kaist/lib/kernel/hash.c:136-146 | removes the equal element, and none is left; with memory the bucket count is then the best one |
| `HashTable.Iterator.Next` | pintos-kaist/lib/kernel/hash.c:217-234 | the iteration continues where it stopped and ends after the last element |
| `HashTable.VisitAll` | pintos-kaist/lib/kernel/hash.c:201-234 | an iteration visits every element exactly once |
| `Bits.AndMask` | pintos-kaist/lib/kernel/bitmap.c:172-176 | testing with a one-bit mask reads that bit |
| `Bitmaps.StoreWord` | pintos-kaist/lib/kernel/bitmap.c:31-45 | changing one bit of one word changes one bit of the map |
| `Bitmaps.Bitmap.Mark` | pintos-kaist/lib/kernel/bitmap.c:137-144 | OR with the mask sets that bit only |
| `Bitmaps.Bitmap.Reset` | pintos-kaist/lib/kernel/bitmap.c:148-155 | AND with the complement clears that bit only |
| `Bitmaps.Bitmap.Flip` | pintos-kaist/lib/kernel/bitmap.c:161-168 | XOR with the mask toggles that bit only |
| `Bitmaps.Bitmap.SetMultiple` | pintos-kaist/lib/kernel/bitmap.c:190-199 | fills exactly the range |
| `Bitmaps.Bitmap.Contains` | pintos-kaist/lib/kernel/bitmap.c:221-232 | true if and only if some bit of the range has the value |
| `Bitmaps.Bitmap.Scan` | pintos-kaist/lib/kernel/bitmap.c:261-273 | the first run of that length, or none when there is none |
| `Bitmaps.Bitmap.ScanAndFlip` | pintos-kaist/lib/kernel/bitmap.c:282-287 | turns over the first fitting run and nothing else |
| `Malloc.BlockFacts` | pintos-kaist/threads/malloc.c:244-268 | block_to_arena inverts arena_to_block, and blocks lie inside their page |
| `Malloc.PageCntEnoughIff` | pintos-kaist/threads/malloc.c:99-103 | a big block's pages suffice if and only if the size did not wrap |
| `Malloc.WrapFacts` | pintos-kaist/threads/malloc.c:99-103 | which sizes wrap, to how many pages, and that a request that wraps to none is always met |
| `Malloc.MallocOk` | pintos-kaist/threads/malloc.c:85-144 | for every size, the heap stays sound if and only if the page count does not wrap or no pages are found; then a block not in use and large enough, nothing else disturbed; fails exactly for size 0 or when pages are short |
| `HeapCalls.MallocFits` | pintos-kaist/threads/malloc.c:85-144 | a small block is the smallest power of two from 16 on that holds the request, a big one has no page too many |
| `HeapCalls.MallocTakesFirst` | pintos-kaist/threads/malloc.c:111-144 | the front of the list is handed out; an empty list is first filled from the first free page, in the order of addresses |
| `HeapCalls.MallocPages` | pintos-kaist/threads/malloc.c:85-144 | exactly the pages of the block's new arena become used |
| `Malloc.FreeOkay` | pintos-kaist/threads/malloc.c:202-240 | that block goes; its arena is returned exactly when none of its blocks is left in use |
| `HeapCalls.FreePages` | pintos-kaist/threads/malloc.c:202-240 | exactly the pages of an arena that goes become unused, and the block is overwritten |
| `HeapCalls.FreePushes` | pintos-kaist/threads/malloc.c:202-240 | the block goes to the front of its list and no other list changes |
| `HeapCalls.FreedBlockIsNext` | pintos-kaist/threads/malloc.c:139-144 | the block freed last is the next to be handed out |
| `Malloc.ReallocOk` | pintos-kaist/threads/malloc.c:183-197 | the heap stays sound exactly when the malloc in it keeps it so; then the common prefix is kept and the old block freed; without memory nothing changes |
| `Malloc.ReallocKeeps` | pintos-kaist/threads/malloc.c:183-197 | a realloc that keeps the heap sound keeps the bytes of every other block |
| `HeapCalls.ReallocToNothing` | pintos-kaist/threads/malloc.c:183-197 | realloc to size 0 frees the block, returns null and keeps every other block |
| `HeapCalls.ReallocOfNull` | pintos-kaist/threads/malloc.c:183-197 | realloc of null is malloc |
| `Malloc.FreeKeeps` | pintos-kaist/threads/malloc.c:202-240 | freeing leaves the bytes of every other block alone |
| `Malloc.LiveApart` | pintos-kaist/threads/malloc.c:85-144 | live blocks do not overlap |
| `Malloc.LiveApartFromFree` | pintos-kaist/threads/malloc.c:85-144 | live blocks do not touch free blocks or arena headers |
| `Malloc.RunsKeepHeap` | pintos-kaist/threads/malloc.c:69-268 | in every run of malloc, free and realloc from an empty heap, others using the page pool in between, the heap is sound after every call (live blocks apart and large enough, free counts exact) if and only if no call has a page count that wraps and is met |
| `Malloc.Heap.DoMalloc` | pintos-kaist/threads/malloc.c:85-144 | the code computes the specified step |
| `Malloc.Heap.DoFree` | pintos-kaist/threads/malloc.c:202-240 | the code computes the specified step; every block it unlinks is on the list |
| `Malloc.Heap.DoRealloc` | pintos-kaist/threads/malloc.c:183-197 | the code computes the specified step |
| `PageTable.SlotInjective` | pintos-kaist/threads/mmu.c:11-110 | different virtual pages never share an entry |
| `PageTable.AddedKeepsEntry` | pintos-kaist/threads/mmu.c:11-110 | installing an empty table changes no lookup |
| `PageTable.Restored` | pintos-kaist/threads/mmu.c:64-68 | the rollback gives back the very same tables |
| `PageTable.Mmu.PgdirWalk` | pintos-kaist/threads/mmu.c:11-34 | finds the entry, or takes exactly the missing page, or changes nothing |
| `PageTable.Mmu.PdpeWalk` | pintos-kaist/threads/mmu.c:37-69 | the same one level up, with rollback of the page it took |
| `PageTable.Mmu.Pml4eWalk` | pintos-kaist/threads/mmu.c:78-110 | fails exactly when memory is short; then tables and pool are as before |
| `PageTable.Mmu.GetPage` | pintos-kaist/threads/mmu.c:249-258 | the frame and offset of a present page, null otherwise |
| `PageTable.Mmu.SetPage` | pintos-kaist/threads/mmu.c:264-276 | this page's entry becomes the new mapping and every other page's is unchanged |
| `PageTable.Mmu.ClearPage` | pintos-kaist/threads/mmu.c:282-296 | the present bit goes, the rest of the entry stays, and every other page is unchanged |
| `PageTable.Mmu.SetDirty` | pintos-kaist/threads/mmu.c:309-322 | only this page's entry changes, as the masks say |
| `PageTable.Mmu.SetAccessed` | pintos-kaist/threads/mmu.c:335-348 | only this page's entry changes, as the masks say |
| `PageTable.DirtyKeepsFrameIff` | pintos-kaist/threads/mmu.c:309-322 | no other flag changes, and the mapping survives a clear if and only if the frame is below four gigabytes |
| `PageTable.AccessedKeepsFrameIff` | pintos-kaist/threads/mmu.c:335-348 | the same for the accessed bit |
| `PageTable.IndicesDeterminePage` | pintos-kaist/include/threads/pte.h:42-50 | up to 48 bits, equal indices mean the same page |
| `Paging.EvictOk` | pintos-kaist/vm/vm.c:146-182 | eviction keeps the invariant (each page in exactly one of a frame or a slot, set bits of the swap table exactly the distinct slots in use) and memory as the program sees it |
| `Paging.ExhaustedIff` | pintos-kaist/vm/vm.c:146-211 | pool and swap disk are both exhausted, if and only if the pages claimed so far are as many as the two hold |
| `Paging.ClaimedCount` | pintos-kaist/vm/anon.c:55-146 | the pages claimed so far are exactly as many as the pool's used pages and the set bits of the swap table |
| `Paging.SlotForVictim` | pintos-kaist/vm/anon.c:81-103 | with fewer pages in the address space than pool and swap disk hold together, a claim never panics |
| `Paging.InstallOk` | pintos-kaist/vm/vm.c:307-326 | installing a page in a frame keeps the invariant |
| `Paging.Vm.AllocPage` | pintos-kaist/vm/vm.c:53-100 | a page is added exactly when its address is new, and holds what its initializer will write |
| `Paging.Vm.WriteToSwap` | pintos-kaist/vm/anon.c:105-107 | the sector loop writes exactly this slot |
| `Paging.Vm.EvictFrame` | pintos-kaist/vm/vm.c:163-182 | the oldest frame is emptied and memory is unchanged; the assertions fail exactly when there is no frame or no free slot |
| `Paging.Vm.GetFrame` | pintos-kaist/vm/vm.c:188-211 | a zeroed page from the pool, or an evicted frame with its old bytes; a panic if and only if both are exhausted |
| `Paging.Vm.SwapIn` | pintos-kaist/vm/anon.c:55-78 | the slot's bytes arrive in the frame and the slot is freed |
| `Paging.Vm.ClaimPage` | pintos-kaist/vm/vm.c:307-326 | memory is unchanged for a page with defined content, otherwise the page starts as zeros or as the evicted bytes; its frame becomes the youngest; a panic if and only if pool and swap disk are exhausted |
| `Paging.Vm.Touch` | pintos-kaist/vm/vm.c:249-285 | a fault changes no page with contents and gives one without its first contents; it panics if and only if the page is not there and both are exhausted |
| `Paging.Vm.Read` | pintos-kaist/vm/vm.c:249-285 | a load on any address gives the flat memory's byte, or is refused outside the address space |
| `Paging.Vm.Write` | pintos-kaist/vm/vm.c:249-285 | a store on any address updates the flat memory, or is refused outside it and on read-only pages |
| `Paging.Vm.DestroyPage` | pintos-kaist/vm/anon.c:125-146 | the page and its frame or slot go; nothing else does |
| `Paging.Vm.Execute` | pintos-kaist/vm/vm.c:146-326 | every run of allocations, destructions, loads and stores behaves as on a flat memory, however often pages are evicted, up to the first access to an absent page when pool and swap disk are exhausted; there is none while the pages are fewer than the two hold |
| `FlatMemory.LoadGivesLastStore` | pintos-kaist/vm/vm.c:146-326 | on that flat memory a load gives what was last stored, whatever happens in between elsewhere |
| `FlatMemory.StoreDoes` | pintos-kaist/vm/vm.c:249-285 | a store changes its byte only, and is refused exactly outside the address space and on read-only pages |
| `FlatMemory.LoadDoes` | pintos-kaist/vm/vm.c:249-285 | a load gives the byte, or nothing exactly outside the address space |
| `FlatMemory.PagesDo` | pintos-kaist/vm/vm.c:53-100 | a page is added exactly when new and removed exactly when there, and no other changes |
| `Loading.AddressSpace.LoadEager` | pintos-kaist/userprog/process.c:695-740 | succeeds exactly when the file is long enough, memory suffices and the pages are unused; then maps the image |
| `Loading.AddressSpace.LoadLazy` | pintos-kaist/userprog/process.c:823-860 | notes for each page what it will need |
| `Loading.AddressSpace.Fault` | pintos-kaist/vm/uninit.c:44-57 | the first fault on a page does not change what the program sees |
| `Loading.AddressSpace.Faults` | pintos-kaist/vm/uninit.c:44-57 | nor do faults in any order, and each faulted page holds the image |
| `Loading.PagesAgree` | pintos-kaist/userprog/process.c:782-807 | a lazily loaded page is byte for byte the eager one |
| `Loading.LazyIsEager` | pintos-kaist/userprog/process.c:782-860 | what the lazy loader shows is the eager image |
| `Loading.LoadBothWays` | pintos-kaist/userprog/process.c:695-860 | one segment loaded by both loaders: success agrees up to the file's length, each touched page is the eager one, and once all are touched the memories are equal |
| `Loading.LoadsWholeIff` | pintos-kaist/userprog/process.c:555-580 | the loaders' assertion holds for every valid header; the whole segment is loaded if and only if no count is cut |
| `Loading.ValidateIff` | pintos-kaist/userprog/process.c:635-675 | exactly which headers are accepted, without the wrapping of the sums |
| `Loading.ImageMatchesHeader` | pintos-kaist/userprog/process.c:555-580 | the file's bytes appear at the header's address, then zeros (program header rules, chapter 5 of the System V gABI) |
| `InodeIO.Disk.ReadAt` | pintos-kaist/filesys/inode.c:185-229 | sector by sector, reads exactly the slice; min(size, length - offset) bytes with memory |
| `InodeIO.Disk.WriteAt` | pintos-kaist/filesys/inode.c:236-291 | writes exactly those bytes of the disk, none when writes are denied |
| `InodeIO.WriteUpdatesSlice` | pintos-kaist/filesys/inode.c:236-291 | on the file's bytes this is a slice update, and reads back |
| `InodeIO.WriteKeepsOthers` | pintos-kaist/filesys/inode.c:236-291 | files in disjoint extents are unchanged |
| `FileSystem.RunsKeepWorldOk` | pintos-kaist/filesys/filesys.c:60-116 | in every run, with memory or reads failing anywhere: live files' sectors are marked and disjoint, at most one in-memory inode per sector, and open counts match the handles, up to the first create that clashes and no further |
| `FileSystem.StepOkIff` | pintos-kaist/filesys/filesys.c:60-116 | one operation keeps all this if and only if it is not such a create |
| `FileSystem.CreateOkIff` | pintos-kaist/filesys/directory.c:126-160 | a create clashes if and only if dir_add, its reading cut short, writes a second entry of that name or over the entry of an open file |
| `FileSystem.ClashRun` | pintos-kaist/filesys/directory.c:147-160 | a run from a blank disk in which an open file loses its name to another file |
| `FileSystem.ReleasedAtLastClose` | pintos-kaist/filesys/inode.c:152-172 | a removed file's sectors are released at its last close and not before |
| `FileSystem.InodeCloseOk` | pintos-kaist/filesys/inode.c:152-172 | a close frees exactly the sectors of a removed file it was the last to hold |
| `FileSystem.CreateAdds` | pintos-kaist/filesys/filesys.c:60-77 | a create adds an entry for a sector nobody used; exactly when the name then stands for it, and exactly which other name changes |
| `FileCalls.CreateSucceedsIff` | pintos-kaist/filesys/filesys.c:60-77 | a create succeeds if and only if the directory opens, the name has 1 to 14 characters, there is room for inode and data and the map can be written, there is memory, the name is not read, and a slot inside the directory can be written |
| `FileCalls.CreateDoes` | pintos-kaist/filesys/filesys.c:60-77 | what it then writes: the first free sector, the first run beside it, just those marks, and one entry |
| `FileSystem.FailedCreate` | pintos-kaist/filesys/filesys.c:60-77 | a failed create changes no name, and leaks sectors exactly when it fails in the directory with a nonempty file |
| `FileCalls.FailedCreateLeaves` | pintos-kaist/filesys/filesys.c:60-77 | a failed create leaves exactly the marks of the data behind, if it came to the directory |
| `FileSystem.OpenOkStep` | pintos-kaist/filesys/filesys.c:88-103 | an open finds the name's inode and adds one opener; it succeeds exactly when the name can be read and the memory is there |
| `FileSystem.RemoveOkStep` | pintos-kaist/filesys/filesys.c:109-116 | a remove takes that name only, exactly when it can be read and written; the file's sectors are released at once if nobody has it open and otherwise stay |
| `FileSystem.FileSys.Find` | pintos-kaist/filesys/directory.c:80-99 | the scan finds the first entry in use with that name among those it can read |
| `FileSystem.FileSys.FindSlot` | pintos-kaist/filesys/directory.c:143-153 | the scan ends at the first free entry it can read, or where its reading ends |
| `FileSystem.ShortLookupIff` | pintos-kaist/filesys/directory.c:80-99 | a lookup whose reading is cut short is right if and only if it had passed the entry sought or there is none |
| `FileSystem.ShortScanOverwritesIff` | pintos-kaist/filesys/directory.c:139-160 | when dir_add takes a short read for the end, every other name survives if and only if the entry it writes was free or had that name |
| `FileSystem.FileSys.TakeSectors` | pintos-kaist/filesys/free-map.c:25-37 | a run is given exactly when one is free and the map can be written, and then the first; otherwise the map is as before |
| `FileCalls.AllocateIff` | pintos-kaist/filesys/free-map.c:25-37 | the same of the allocation as a function |
| `FileSystem.FileSys.AcquireInode` | pintos-kaist/filesys/inode.c:105-133 | shares the in-memory inode if there is one |
| `FileSystem.FileSys.CloseInode` | pintos-kaist/filesys/inode.c:152-172 | the code computes the specified step and keeps the invariant |
| `FileSystem.FileSys.CreateFile` | pintos-kaist/filesys/filesys.c:60-77 | the code computes the specified step, and keeps the invariant exactly when it does not clash |
| `FileSystem.FileSys.OpenFile` | pintos-kaist/filesys/filesys.c:88-103 | the code computes the specified step and keeps the invariant |
| `FileSystem.FileSys.RemoveFile` | pintos-kaist/filesys/directory.c:168-199 | the code computes the specified step and keeps the invariant |
| `Descriptors.RunsKeepCounts` | pintos-kaist/userprog/syscall.c:435-589 | in a run of open, close, dup2, fork, exec and exit no call faults and all counts are exact after each, if and only if every copying dup2 stays inside the table and no fork copies a file on descriptor 0 or 1 |
| `Descriptors.StepOkIff` | pintos-kaist/userprog/syscall.c:435-589 | the same for one call |
| `Descriptors.OpenIffReferenced` | pintos-kaist/filesys/file.c:44-97 | a handle is open exactly while referenced; an inode's counts are its handles and its denying handles |
| `Descriptors.SysCloseOk` | pintos-kaist/userprog/syscall.c:526-549 | a close removes that descriptor only, and the handle with its last reference |
| `DescriptorCalls.CloseDoes` | pintos-kaist/userprog/syscall.c:526-549 | the descriptor is empty, its handle has one reference less or is closed, and nothing else changes |
| `Descriptors.SysDup2Ok` | pintos-kaist/userprog/syscall.c:557-589 | faults exactly when the target is outside the table; otherwise newfd names what oldfd names |
| `DescriptorCalls.Dup2Does` | pintos-kaist/userprog/syscall.c:557-589 | the table changes at newfd only, and the two handles' counts move as they should |
| `Descriptors.SysOpenOk` | pintos-kaist/userprog/syscall.c:435-471 | the handle gets a descriptor exactly when an entry from fd_idx on is empty; otherwise it is lost |
| `DescriptorCalls.OpenDoes` | pintos-kaist/userprog/syscall.c:435-471 | a new handle on the inode asked for, under the first empty descriptor from fd_idx on |
| `Descriptors.ExecOk` | pintos-kaist/userprog/process.c:266-276 | the executable is opened and denied; the previous one's handle is lost if there was one |
| `DescriptorCalls.ExecDoes` | pintos-kaist/userprog/process.c:266-276 | the new executable has its own handle on its inode, which denies writes |
| `Descriptors.ExitOk` | pintos-kaist/userprog/process.c:347-373 | exit names nothing any more and keeps every count |
| `DescriptorCalls.ExitDoes` | pintos-kaist/userprog/process.c:347-373 | no table and no executable is left, and other processes are as before |
| `Descriptors.ForkOkIff` | pintos-kaist/userprog/process.c:203-231 | fork keeps the counts if and only if descriptors 0 and 1 are not files |
| `DescriptorCalls.ForkDoes` | pintos-kaist/userprog/process.c:203-231 | the child has the same console and empty entries and the same first two, and for every other file a handle of its own on the same inode with the same denial, or null without memory |
| `DescriptorCalls.ForkGivesUp` | pintos-kaist/userprog/process.c:199-201 | nothing is copied when the parent's table is exhausted |
| `Descriptors.ForkedStdinDangles` | pintos-kaist/userprog/process.c:211-214 | otherwise the second of parent and child to close reaches a freed handle |
| `Descriptors.DanglingRun` | pintos-kaist/userprog/process.c:211-214 | three calls from boot lead there, and three more fault |
| `Descriptors.FileCloseOk` | pintos-kaist/filesys/file.c:89-97 | closing takes back the denial and the share of the inode; no assertion fails |
| `Descriptors.Kernel.FindUnusedFd` | pintos-kaist/userprog/syscall.c:435-448 | the first empty entry from fd_idx on, and that the loop reads one entry past the table exactly when there is none |
| `Descriptors.Kernel.Close` | pintos-kaist/userprog/syscall.c:526-549 | the code computes the specified step |
| `Descriptors.Kernel.Dup2` | pintos-kaist/userprog/syscall.c:557-589 | the code computes the specified step for every newfd and returns newfd or -1; it writes outside the table exactly when the step faults |
| `Descriptors.Kernel.ProcessExit` | pintos-kaist/userprog/process.c:347-373 | the closing loop and the executable compute the specified step |
| `Descriptors.Kernel.DoFork` | pintos-kaist/userprog/process.c:203-231 | the copying loop computes the specified step |
| `ProcessWait.StepSafe` | pintos-kaist/userprog/process.c:101-123 | every action of every process keeps the invariant and reaches no freed memory, a fork behind a freed block excepted |
| `ProcessWait.RunsSafe` | pintos-kaist/userprog/process.c:101-378 | an interleaving follows a link to a thread block or fork_info that was given back, or gives one back twice, if and only if some fork in it comes after the youngest thread block was given back |
| `ProcessWait.ForkFaultsIff` | pintos-kaist/threads/thread.c:620-622 | a fork writes through a link to a block that was given back if and only if the youngest thread's block was |
| `ProcessWait.ForkWaitForkFaults` | pintos-kaist/threads/thread.c:620-622 | fork, wait, fork does that |
| `ProcessWait.StatusCollectedOnce` | pintos-kaist/userprog/process.c:310-330 | wait hands out a child's status at most once, and it is the very number passed to exit, or -1 if that was negative |
| `ProcessWait.WaitAgainRefused` | pintos-kaist/userprog/process.c:310-344 | afterwards wait refuses at once, for everyone and for ever |
| `ProcessWait.WaitProceedsIff` | pintos-kaist/userprog/process.c:323-323 | wait proceeds exactly when the child has signalled |
| `ProcessCalls.WaitReturns` | pintos-kaist/userprog/process.c:310-330 | a wait for a child that has signalled returns its status, unlinks it and lets it go |
| `ProcessCalls.WaitRefusedIff` | pintos-kaist/userprog/process.c:310-344 | wait returns at once for anyone but an uncollected child |
| `ProcessCalls.ForkDoes` | pintos-kaist/userprog/process.c:101-116 | fork makes a child with a fresh tid and no status, linked to its parent |
| `ProcessCalls.ForkReturns` | pintos-kaist/userprog/process.c:101-123 | an uninterrupted fork leaves a running child and nothing of the fork behind |
| `ProcessCalls.ExitDoes` | pintos-kaist/userprog/process.c:347-377 | exit records the status and signals the parent |
| `ProcessCalls.FreeDoes` | pintos-kaist/threads/thread.c:742-793 | a collected process gives back its block and nothing else changes |
| `ProcessWait.FreedOnlyAfterCollected` | pintos-kaist/threads/thread.c:742-793 | a thread block is queued for freeing only after its status was read and it was unlinked |
| `ProcessWait.ExitsFinal` | pintos-kaist/userprog/syscall.c:339-346 | a status passed to exit never changes |
| `ProcessWait.OrphanNeverFreed` | pintos-kaist/userprog/process.c:376-377 | a child whose parent leaves without waiting is never freed |
| `ProcessWait.FreeableIff` | pintos-kaist/userprog/process.c:374-378 | a child's block can still be freed by some continuation if and only if the child is no orphan |
| `ProcessWait.ForkReportsIff` | pintos-kaist/userprog/process.c:117-122 | fork tells rightly whether the child was made if and only if it was made and has not yet exited with -1, or was not made and has already exited |
| `ProcessWait.ForkReportsRace` | pintos-kaist/userprog/process.c:117-122 | runs with either kind of wrong report |

## Left out

- Device drivers, assembly, context switches, interrupt gates, the boot loader and memory detection: hardware state.
- The FAT file system and the page cache: their bodies are stubs.
- Copy-on-write fork, file-backed pages, mmap and stack growth: `Paging` has one address space and anonymous pages.
- Paging.Vm.Read: is refused outside the address space, and so is `Paging.Vm.Write`; the code first grows the stack for some of these addresses.
- TLB invalidation, page-table destruction, and sharing of kernel tables between address spaces in `PageTable`.
- Condition variables, plain semaphores and the sleep queue; the donation walk and the enqueueing on the lock are one atomic step, and the feedback-queue scheduler is off in `PriorityDonation`.
- Which thread runs next in `Mlfqs`: it and the ready queue after a switch are part of the event.
- Mlfqs.Scheduler.MlfqsOnTick: `timer_interrupt` also wakes sleepers, which is left out, and the yield that may follow is an event of its own.
- Printf's format parsing, string conversions and output longer than an `int` can count.
- Byte-wise element swaps in `Sorting`: elements are values.
- Removal of duplicates, minimum and maximum in `KernelList`.
- Hash functions, destructors and applying in `HashTable`: the hash is any function that agrees with equality. A failed allocation at the start leaves no table.
- Arena headers and free-list links as bytes in `Malloc`: they are separate data, shown to lie apart from every live block. The descriptor locks are not modelled.
- Malloc.Heap.DoRealloc: after a malloc that hands out too small a block, what the copy overwrites is not followed.
- Out-of-memory and disk failures are parameters (`memory`, `fails`, `env`), as are the contents a new page happens to hold.
- The root directory's own open count, directory reading, and files larger than one extent (the code has none).
- Descriptors.ExecOk: the handles that the lazy loader reopens for each page of an executable are not tracked.
- Mlfqs.NoOverflowIff: which page the allocator hands out next is not modelled, here and in `ProcessWait`; a block counts as given back even if its page serves a new thread.
- In `ProcessWait` each semaphore operation is atomic, which disabling interrupts guarantees; the semaphores of fork belong to one fork at a time.
- Loading.ImageMatchesHeader: says nothing about addresses of the first page before the segment, where the header rules are silent.
