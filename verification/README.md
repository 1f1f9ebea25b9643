# Verified models of Munix

Dafny models of the parts of the Munix teaching kernel and its C library whose correctness depends on several
functions or on a whole run, with proofs. `dafny verify dfyconfig.toml` checks everything.

Where the C code changes things in place, the model is a class or a method over arrays with the same branches
and constants. Each such method is proved against a function or a relation on plain values, and the properties
of whole runs are proved about those.

| Part | Modules |
|---|---|
| Two-level page map and its pool of table pages | `PageEntry`, `PageState`, `PageSteps`, `Sweep`, `UnmapSteps`, `PageMap`, `PageTheorems`, `PageRoom`, `PageRuns`, `UnmapHoles`, `PageFacts`, `PageWitness` |
| Threads, ready queue and scheduler | `Threads`, `ThreadRuns`, `ThreadExits`, `ThreadLists`, `Scheduler` |
| Intrusive circular list | `Lists` |
| User threads, the spin mutex and its two client programs | `UserThreads`, `Philosophers`, `PhilosopherFacts`, `DataRace`, `RaceFacts` |
| Terminal line discipline | `Tty`, `TtyDriver`, `TtyLines` |
| Formatted output and reading numbers back | `Format`, `FormatText`, `FormatPieces`, `Sprintf`, `FormatClient`, `Atoi`, `AtoiFacts` |
| Command line and process stack | `CommandLine`, `ProcessStack`, `CommandBytes` |
| Archive reader over a memory disk | `Cpio`, `CpioReader`, `CpioArchive` |

How the pieces fit:

- **Page map.** `PageState.State` is flat memory: the words of the five table pages and the root entries of any
  number of address spaces. Its invariant says that every allocated page is reached from exactly one entry, and
  that a leaf's user and write bits are set in its directory entry as well (sections 4.3 and 4.6 of the Intel
  SDM, volume 3A). Sizes and addresses wrap at 32 bits. `Sweep` is a reference account of which pages the
  recursive unmap removes, including its behaviour at holes, where the size of a whole table, or none at all, is
  used up; `UnmapHoles` brings it into closed form, and `PageWitness` gives runs in which it goes wrong.
  `PageRoom` counts the table pages a map needs, and so says when it succeeds.
- **Threads.** `Threads` is a state machine whose actions are the kernel's code between two context switches;
  kernel entry masks interrupts, so these are atomic. Its `log` records exits and joins. Two joins on one
  thread, joins on tid 0 and a thread joining itself are not excluded: the queue's invariant holds through
  them, and the join theorem says exactly which returns are right. `Scheduler` keeps the table in an array and
  its two lists as pointer lists (`ThreadLists`, over `Lists`), and follows the machine step by step.
- **Mutex programs.** Every lock, unlock, load and store is one step of one thread; schedules are arbitrary
  sequences of thread numbers. The flag is the atomic flag of section 7.17.8 of C11; a step on a taken mutex
  yields.
- **Terminal.** The reference is a fold of line editing over the bytes consumed. A typed end of file is a token
  of its own in what the reader receives. The port is the bytes waiting at it and the answer it gives when there
  are no more.
- **Formatting.** `Format.Render` is the unbounded text (sections 7.21.6.1 and 7.21.6.5 of C11). Variadic
  arguments are a sequence of slots, each readable as an integer or as a string. Integers are narrowed to the
  width the length modifier names.
- **Process stack.** Byte-addressed memory with little-endian words, as in chapter 3 of the System V ABI
  supplement for Intel386.
- **Archive.** `Cpio.Holds` relates the bytes of an archive in the "New ASCII Format" of cpio(5) to its entries
  and to the way it ends: a trailer, something without a header, or a name that is too long. Headers are read
  whatever they hold, as long as the loop that reads a name ends, and `NameLoopEnds` says when it does.

The functions that the methods are proved against are pinned down in their turn, in numbers, bytes and memory words,
by theorems that name none of them: `PageFacts` (frames, attribute bits, sizes), `ThreadExits` (arguments and tids),
`PhilosopherFacts` and `RaceFacts` (steps and totals), `TtyLines` and `CommandBytes` (bytes), `FormatText` and
`FormatPieces` (digits and their value), `AtoiFacts`, and `CpioArchive` (an archive as a writer lays it out, read back).

Where the code does less than its comments suggest, the model follows the code and the exact condition is
proved: unmapping ranges with holes (`UnmapExactIff`), cleaning up a space (`CleanupLeaves`), reading back signed
numbers (`SignedRoundTrip`), joins (`JoinReturns`), user threads refused by a scan (`ScanDecidedByTests`), tables
that can deadlock (`DeadlockIff`), and names that an archive cuts off (`NameLoopEnds`).

## Model

| member | source | states |
|---|---|---|
| `PageEntry.CoverszValues` | src/kernel/pagemap.c:57-61 | what the cover of each level comes to with 32-bit wrap-around: 0 at the directory, four megabytes for a whole table |
| `PageMap.Cursor.constructor` | src/kernel/pagemap.c:47-55 | `pm_offsets` is the positional decomposition of the page number into directory index, table index and page offset |
| `PageMap.PageMap.constructor` | src/kernel/pagemap.c:16-18 | an empty map: every page of the pool free, all roots zero, the invariant and the emptiness of all translations |
| `PageMap.PageMap.PhyspageAlloc` | src/kernel/pagemap.c:20-29 | takes the first free page of the pool or none, and changes no other page |
| `PageMap.PageMap.PhyspageFind` | src/kernel/pagemap.c:33-38 | finds the pool index a page address came from |
| `PageMap.PageMap.NewTable` | src/kernel/pagemap.c:99-111 | allocates, clears and links a table below an absent entry without changing any translation; -ENOMEM changes nothing |
| `PageMap.PageMap.OpenTable` | src/kernel/pagemap.c:99-118 | allocates or reopens the table below an entry; in both cases no translation changes and the rights are widened |
| `PageMap.PageMap.MapRecursive` | src/kernel/pagemap.c:77-144 | one call maps the next pages of the range below its entry, in order, and leaves the cursor where the next entry starts, also when it fails part-way; it fails at a page without a table, with the pool full |
| `PageMap.PageMap.MapChildren` | src/kernel/pagemap.c:121-138 | the loop over a table keeps "a prefix of the range is mapped", carries into the next table, and fails where a call below it does |
| `PageMap.PageMap.UnmapRecursive` | src/kernel/pagemap.c:146-208 | one call clears exactly the pages that the reference sweep names, frees exactly the tables left empty, and leaves the cursor the sweep leaves |
| `PageMap.PageMap.UnmapTable` | src/kernel/pagemap.c:164-208 | an emptied table is freed and its entry cleared; the root entry keeps its address, so its space dies |
| `PageMap.PageMap.UnmapChildren` | src/kernel/pagemap.c:176-189 | the unmap loop over one table against the sweep of that table |
| `PageMap.PageMap.IsTableEmpty` | src/kernel/pagemap.c:191-194 | true exactly when no entry of the table is present |
| `PageMap.PageMap.Map` | src/kernel/pagemap.c:210-235 | every page of the range translates to its physical page with exactly the given flags plus present, all other pages of all spaces translate as before, and after -ENOMEM exactly a prefix is mapped, the next page has no table and the pool is full |
| `PageMap.PageMap.Unmap` | src/kernel/pagemap.c:237-246 | clears exactly the pages of the reference sweep in one space and no page of any other |
| `PageMap.PageMap.Cleanup` | src/kernel/pagemap.c:254-257 | unmaps with the largest size, which is not rounded |
| `PageMap.PageMap.InitSpace` | src/kernel/pagemap.c:248-252 | the kernel area of a new space is mapped to itself |
| `PageSteps.StoreLeafWalk` | src/kernel/pagemap.c:86-92 | writing one leaf changes the translation of one page in one space |
| `PageSteps.LinkTable` | src/kernel/pagemap.c:100-111 | linking a zeroed table keeps the ownership invariant and every translation |
| `PageSteps.ReopenTable` | src/kernel/pagemap.c:112-118 | adding flags to an entry on the way down keeps the invariant and every translation |
| `PageSteps.FreeTable` | src/kernel/pagemap.c:199-206 | freeing an empty table keeps the invariant: each remaining table has exactly one entry pointing at it and no freed page is reachable from a live space |
| `PageSteps.FreeTableWalk` | src/kernel/pagemap.c:199-206 | freeing an empty table changes no translation of a space that stays live |
| `PageSteps.MapStep` | src/kernel/pagemap.c:121-138 | one turn of the map loop extends the mapped prefix |
| `Sweep.SweepFull` | src/kernel/pagemap.c:146-189 | on a fully mapped range the sweep removes exactly the pages of the range below an entry and ends with the right cursor |
| `Sweep.SweepFrame` | src/kernel/pagemap.c:146-189 | what a call removes depends only on what its own entry covers |
| `UnmapSteps.FinishTable` | src/kernel/pagemap.c:191-206 | the end of a call that went through a table: kept with its entries or freed empty |
| `UnmapSteps.DirectoryFate` | src/kernel/pagemap.c:191-206 | the directory is left empty exactly when the sweep removes every page of the space |
| `UnmapSteps.IdentityMap` | src/kernel/pagemap.c:248-252 | a mapped kernel area translates to itself with supervisor rights only |
| `PageTheorems.EffectiveRightsOfLeaf` | src/kernel/pagemap.c:88-117 | in every map that keeps the invariant, the AND of the user and write bits over both levels is the leaf's own |
| `PageTheorems.MapGrants` | src/kernel/pagemap.c:210-235 | after a map the processor grants each page of the range exactly the flags asked for, and all others what they had |
| `PageTheorems.SweepOfFullRange` | src/kernel/pagemap.c:237-246 | for a fully mapped range the reference sweep is the range |
| `PageTheorems.UnmapExact` | src/kernel/pagemap.c:237-246 | unmapping a fully mapped range removes exactly its pages; the space dies exactly when no other page is left |
| `PageTheorems.MapUnmapRoundTrip` | src/kernel/pagemap.c:210-246 | mapping a fresh range and unmapping it restores every translation, and the set of allocated pages if the space had a page before |
| `PageRoom.MadeTables` | src/kernel/pagemap.c:99-111 | the page tables a map has made are exactly those of the directory slots of its pages that had none |
| `PageRoom.MapSucceedsIff` | src/kernel/pagemap.c:210-235 | a map succeeds if and only if the free pages suffice for one directory, if there is none, and one table for each slot without one; it takes just those, and on failure stops where the first table is missing that finds no page |
| `PageRoom.StopUnique` | src/kernel/pagemap.c:99-104 | there is only one such place, so the prefix mapped by a failed call is determined |
| `PageRuns.StepRefines` | src/kernel/pagemap.c:210-246 | one operation on the tables is one operation on a plain map from page to entry |
| `PageRuns.LeavesApart` | src/kernel/pagemap.c:99-118 | an entry of a table page serves one page of one live space |
| `PageRuns.TablesReachedOnce` | src/kernel/pagemap.c:20-38 | after every run, also with maps that failed part-way, each allocated page is reached from exactly one entry, no freed page is reachable, and no two pages share an entry |
| `PageRuns.RunRefines` | src/kernel/pagemap.c:210-246 | after every run on any number of spaces, each live space translates, and grants rights, as replaying the operations on plain maps says |
| `PageFacts.WalkInMemory` | src/kernel/pagemap.c:33-38 | the processor's walk, word by word in memory: root, directory slot and table slot |
| `PageFacts.MapExact` | src/kernel/pagemap.c:210-235 | page i of the range goes to frame paddr / 4096 + i modulo 2^20 with the flags and the present bit, as many pages as the size rounds up to below 2^32, and the processor grants those rights; all other pages of all spaces stay; the result is 0 or -5 |
| `PageFacts.LastMapDecides` | src/kernel/pagemap.c:210-246 | in every run a page is mapped if and only if some map covered it and it was not taken away since, and then its frame, attributes and rights are those the last such map asked for |
| `PageFacts.UnmapByCount` | src/kernel/pagemap.c:146-246 | a mapped page is taken away exactly when 4096 for each mapped page and 2^22 for each hole in a table, from the start of the walk up to it, come to less than the rounded size; no other page of any space changes |
| `PageFacts.UnmapWholeRange` | src/kernel/pagemap.c:237-246 | on a range that is mapped throughout these are its pages and no others |
| `PageFacts.CleanupByCount` | src/kernel/pagemap.c:254-257 | cleaning up leaves a page exactly when, at a hole below it, less than 2^22 of 2^32 - 1 is left modulo 2^32 |
| `UnmapHoles.SweepTableLeft` | src/kernel/pagemap.c:176-189 | in one present table the walk removes exactly the mapped pages it reaches while something is left of the size, where an absent leaf uses up a whole table's worth |
| `UnmapHoles.SweepRootLeft` | src/kernel/pagemap.c:150-154 | over the whole space, absent directory entries use up nothing and are passed with the table index unchanged |
| `UnmapHoles.LeftOfPages` | src/kernel/pagemap.c:151-160 | of a size that is a number of pages, what is left is the size less the cost of what was passed |
| `UnmapHoles.LeftUntilHole` | src/kernel/pagemap.c:151-160 | any other size wraps at mapped pages, and only a hole with less than a table's worth left, modulo 2^32, ends the walk |
| `UnmapHoles.UnmapRemoves` | src/kernel/pagemap.c:237-246 | for every range and size, a mapped page is removed exactly when the walk reaches it with something left |
| `UnmapHoles.UnmapExactIff` | src/kernel/pagemap.c:237-246 | for every number of pages, anywhere, unmap removes exactly the range if and only if the mapped pages of the range, and no others, are paid for before the size runs out |
| `UnmapHoles.UnmapExactInTable` | src/kernel/pagemap.c:237-246 | inside one table that is: no mapped page follows a hole, or, below an absent directory entry, the next table has no page at the same offset |
| `UnmapHoles.UnmapUnrounded` | src/kernel/pagemap.c:240-246 | for a size that is not rounded, a page stays mapped exactly when it lies before the start of the walk or behind a hole that ends it |
| `UnmapHoles.CleanupLeaves` | src/kernel/pagemap.c:254-257 | cleaning up a space leaves a page mapped exactly when such a hole lies below it |
| `UnmapHoles.CleanupKeepsSpace` | src/kernel/pagemap.c:254-257 | cleaning up frees the directory, and with it everything, exactly when no page lies behind such a hole |
| `UnmapHoles.DeadRootDangles` | src/kernel/pagemap.c:199-206 | when the last page of a space is unmapped its root entry still counts as present and points at a free page |
| `PageWitness.TwoPageRun` | src/kernel/pagemap.c:210-246 | runs of the code: two maps on a fresh map succeed, and an unmap follows |
| `PageWitness.HoleLeavesPageMapped` | src/kernel/pagemap.c:150-154 | in every run that maps pages 0 and 2 and unmaps the first three, page 2 stays mapped |
| `PageWitness.AbsentTableLosesOtherPage` | src/kernel/pagemap.c:150-154 | in every run that maps pages 1024 and 1025 and unmaps page 0, page 1024 is lost |
| `PageWitness.CleanupLeavesPageMapped` | src/kernel/pagemap.c:254-257 | in every run that maps pages 0 and 1025 and cleans up, page 1025 stays mapped |
| `PageWitness.EmptiedSpaceDangles` | src/kernel/pagemap.c:199-206 | in every run that maps pages 0 and 1 and unmaps both, the root entry is left pointing at a free page |
| `Threads.CreateInv` | src/kernel/process.c:344-368 | creating a thread keeps the whole invariant: it is queued once, listed first, and its tid is new |
| `Threads.ScheduleInv` | src/kernel/scheduler.c:74-85 | a switch keeps the invariant, also from the moment the running thread has exited |
| `Threads.DyingConsistent` | src/kernel/process.c:370-374 | an exiting thread leaves queue and history consistent before the switch |
| `Threads.ReapInv` | src/kernel/process.c:398-401 | closing an exited thread keeps the invariant |
| `ThreadRuns.ActInv` | src/kernel/process.c:284-422 | every step of the thread machine keeps the invariant |
| `ThreadRuns.QueueExact` | src/kernel/scheduler.c:27-85 | in every run the ready queue has no duplicates, does not hold the running thread, and holds exactly the other new or ready threads |
| `ThreadRuns.BoundedWaiting` | src/kernel/scheduler.c:41-85 | a thread at queue index k runs after exactly k + 1 context switches, whatever the threads do meanwhile |
| `ThreadRuns.QueueBound` | src/kernel/process.c:28-31 | while a thread runs at most THREAD_MAX - 1 others wait |
| `ThreadRuns.TidAndStatusFixed` | src/kernel/process.c:344-403 | a tid is never issued again and the status of an exited thread never changes |
| `ThreadRuns.ExitFindsThread` | src/kernel/process.c:370-378 | while the initial thread leaves only through process exit, any other exiting thread finds a non-empty queue |
| `ThreadRuns.JoinReturns` | src/kernel/process.c:380-403 | in every run a join returns the status recorded for the thread it closed, closes each thread once, and closes the thread asked for exactly when a positive tid was asked for that no earlier join had closed; `ThreadExits` ties what is recorded to the argument of `thread_exit` |
| `ThreadRuns.LoneJoinsExact` | src/kernel/process.c:380-403 | when each join is called with a positive tid nobody waits for, each returns the status of the very thread asked for |
| `ThreadRuns.TargetStays` | src/kernel/process.c:380-403 | while every join is alone, the exited target of a blocked join stays, with its status, until the joiner's turn |
| `ThreadRuns.JoinEnds` | src/kernel/process.c:380-403 | a lone join whose target has exited, at queue index k, waits for exactly k + 1 switches and returns the target's status before there is another one |
| `ThreadRuns.JoinReturnsInTime` | src/kernel/process.c:380-403 | in every run whose joins are all alone that holds for every such join, and k + 1 is below THREAD_MAX |
| `ThreadRuns.OvertakenJoin` | src/kernel/process.c:380-403 | a run in which the second of two joins on one thread returns the status of another thread |
| `ThreadExits.ActLog` | src/kernel/process.c:370-378 | one action records an exit only of the running thread, with the argument it gave |
| `ThreadExits.ExitIsArgument` | src/kernel/process.c:370-378 | in every run an exit is recorded if and only if the thread with that tid called `thread_exit` with that status |
| `ThreadExits.OneExit` | src/kernel/process.c:370-378 | with one status only |
| `ThreadExits.JoinReturnsArgument` | src/kernel/process.c:380-403 | each join returns exactly the argument that the thread it closed had passed to `thread_exit` |
| `ThreadExits.LoneJoinsReturnArgument` | src/kernel/process.c:380-403 | when each join is called with a positive tid nobody waits for, it is the argument of the thread asked for |
| `ThreadExits.JoinReturnsArgumentInTime` | src/kernel/process.c:380-403 | a lone blocked join of a thread that has called `thread_exit` returns that argument at its next turn, at most 15 switches away |
| `ThreadExits.TidsInOrder` | src/kernel/process.c:344-368 | the k-th thread created gets tid k, the first free slot, the front of the list and the end of the queue |
| `ThreadLists.SlotList.constructor` | src/kernel/process.h:53-81 | zero-filled links, and a head that was never initialised, are the empty list |
| `ThreadLists.SlotList.AddTail` | src/lib/core/list.h:157-161 | the pointers show the list with one slot more at its end |
| `ThreadLists.SlotList.AddFront` | src/lib/core/list.h:143-147 | the pointers show the list with one slot more at its front |
| `ThreadLists.SlotList.LinkedIffIn` | src/kernel/scheduler.c:33-39 | both links of a slot are set exactly when it is in the list |
| `ThreadLists.SlotList.Remove` | src/kernel/scheduler.c:33-39 | tests the links and takes the slot out if they are set |
| `ThreadLists.SlotList.First` | src/lib/core/list.h:231-232 | the slot whose link is behind the head |
| `ThreadLists.SlotList.RotateLeft` | src/lib/core/list.h:331-337 | the first slot goes to the end |
| `Scheduler.Kernel.constructor` | src/kernel/process.c:28-31 | static storage: all slots zero, first tid 1 |
| `Scheduler.Kernel.FindThread` | src/kernel/process.c:38-43 | first slot with the given tid; also the search of `thread_join` |
| `Scheduler.Kernel.ThreadClose` | src/kernel/process.c:45-60 | unlinks a thread from both pointer lists if it is linked, and zeroes its slot |
| `Scheduler.Kernel.SchedAdd` | src/kernel/scheduler.c:27-31 | links a thread at the end of the ready queue; the other list is as before |
| `Scheduler.Kernel.SchedRemove` | src/kernel/scheduler.c:33-39 | unlinks a thread from the ready queue if its links are set |
| `Scheduler.Kernel.ChooseNextThread` | src/kernel/scheduler.c:41-72 | rotates the pointer list to its first thread that can run and returns it |
| `Scheduler.Kernel.Schedule` | src/kernel/scheduler.c:74-85 | does what the machine's switch does and restores the invariant |
| `Scheduler.Kernel.TakeNext` | src/kernel/scheduler.c:78-83 | puts the running thread back unless it exited, and takes the next one out |
| `Scheduler.Kernel.ThreadSwitch` | src/kernel/process.c:284-342 | makes the incoming thread current and ready, changing no other slot |
| `Scheduler.Kernel.Enlist` | src/kernel/process.c:362-366 | front of the process's list, end of the ready queue |
| `Scheduler.Kernel.ThreadCreate` | src/kernel/process.c:344-368 | the machine's creation step; returns the new tid, or -ENOSYS on a full table |
| `Scheduler.Kernel.ThreadYield` | src/kernel/process.c:405-422 | the machine's yield step, for yield and preemption |
| `Scheduler.Kernel.ThreadExit` | src/kernel/process.c:370-378 | the machine's exit step |
| `Scheduler.Kernel.ReapThread` | src/kernel/process.c:398-401 | saves the status and closes the thread |
| `Scheduler.Kernel.JoinTurn` | src/kernel/process.c:395-401 | one turn of the waiting loop: the status and a closed thread, or a switch |
| `Scheduler.Kernel.ThreadJoin` | src/kernel/process.c:380-403 | the machine's join step; -ESRCH for an unknown tid |
| `Scheduler.Kernel.ProcessStart` | src/kernel/process.c:244-252 | the first thread is created and switched to |
| `Lists.RingSwap` | src/lib/core/list.h:117-133 | a ring may be read from any of its nodes |
| `Lists.EnsureInit` | src/lib/core/list.h:67-70 | a never initialised head becomes an empty ring, another is left alone |
| `Lists.ListEmpty` | src/lib/core/list.h:80-83 | true exactly for the empty list |
| `Lists.LinkLast` | src/lib/core/list.h:125-133 | a node is linked in between the last and the first node of a ring |
| `Lists.ListAdd` | src/lib/core/list.h:143-147 | prepends |
| `Lists.ListAddTail` | src/lib/core/list.h:157-161 | appends |
| `Lists.ListDel` | src/lib/core/list.h:173-180 | removes one node wherever it stands and clears its links |
| `Lists.ListShift` | src/lib/core/list.h:256-262 | removes and returns the first node, or null from an empty list |
| `Lists.ListRotateLeft` | src/lib/core/list.h:331-337 | moves the first node to the end, also when it is the only one |
| `UserThreads.SlotsNeverShared` | src/lib/mulibc/threads.c:34-45 | for every interleaving of callers no slot, and so no user stack, has two owners |
| `UserThreads.UndisturbedScan` | src/lib/mulibc/threads.c:34-39 | a scan that nobody disturbs takes the first free slot, or finds none |
| `UserThreads.ScanDecidedByTests` | src/lib/mulibc/threads.c:34-39 | for every interleaving a scan takes the first slot it finds free when it tests it, and is refused if and only if it finds each of them taken |
| `UserThreads.RefusedOnlyIfFull` | src/lib/mulibc/threads.c:34-39 | for every interleaving in which nobody gives a slot back, a caller is refused only if every slot is in use at that moment |
| `UserThreads.RefusedThoughFree` | src/lib/mulibc/threads.c:34-45 | nine callers and a schedule after which one is refused while a slot is free |
| `Philosophers.StepInv` | src/process/philosophers.c:112-165 | each step keeps: a locked fork or screen has exactly one holder, meals are counted once per round |
| `Philosophers.ReachableInv` | src/process/philosophers.c:112-165 | mutual exclusion in every reachable state |
| `Philosophers.NoDeadlock` | src/process/philosophers.c:220-228 | with two or more seats and a left-hander, every reachable unfinished state has a step that does not spin |
| `Philosophers.EveryMaximalRunFeedsAll` | src/process/philosophers.c:112-165 | every run makes a bounded number of real steps, and one that cannot make another ends with every meal count equal to the loop count |
| `Philosophers.CanFinish` | src/process/philosophers.c:112-165 | from every reachable state of such a table the end can still be reached |
| `Philosophers.DeadlockIff` | src/process/philosophers.c:220-228 | a table with work to do can deadlock if and only if it seats one or has no left-hander |
| `PhilosopherFacts.WhoHoldsWhat` | src/process/philosophers.c:112-165 | in every reachable state each fork and the screen are locked exactly by the philosopher at the steps between picking them up and putting them down, right fork first, at the left-handed seat left fork first; meals are counted at step 10 |
| `PhilosopherFacts.NeighboursTakeTurns` | src/process/philosophers.c:133-157 | neighbours never eat at the same time |
| `PhilosopherFacts.EndOfRun` | src/process/philosophers.c:112-165 | a run in which nothing can change any more has fed everybody after 21 effective steps for each meal, and no run takes more |
| `PhilosopherFacts.StuckIff` | src/process/philosophers.c:220-228 | some run gets stuck with meals to come exactly at a table of one or without a left-hander |
| `DataRace.StepInv` | src/process/datarace.c:57-68 | each step keeps: at most one thread inside the mutex, protected counters equal to their writes |
| `DataRace.ProtectedCountersExact` | src/process/datarace.c:57-68 | for every interleaving, both protected counters and the atomic one end as n * count modulo the word size |
| `DataRace.RacyCounterBounds` | src/process/datarace.c:33-49 | for every interleaving without overflow an unprotected counter ends with at most n * count and, from a count of 2 on, at least 2 |
| `DataRace.CanGoOn` | src/process/datarace.c:57-68 | in every reachable unfinished state some thread can take a step that does not spin |
| `DataRace.EveryMaximalRunCounts` | src/process/datarace.c:33-68 | every run takes a bounded number of real steps, and one that cannot take another ends with all threads done and the protected counters exact |
| `DataRace.TwoIsAttained` | src/process/datarace.c:33-49 | with two or more threads some interleaving ends with exactly 2 |
| `RaceFacts.ProtectedTotals` | src/process/datarace.c:51-68 | for every interleaving the mutex excludes, and the three protected totals are exact modulo 2^32 |
| `RaceFacts.RacyTotals` | src/process/datarace.c:33-49 | for every interleaving both unprotected totals lie between 2 and n * count |
| `RaceFacts.BothCanEndWithTwo` | src/process/datarace.c:33-49 | either can end with 2 |
| `RaceFacts.OneThreadExact` | src/process/datarace.c:33-69 | a single thread counts exactly in all five |
| `Tty.InCharFollows` | src/lib/drivers/chrdev/tty.c:155-178 | each byte accepted keeps "delivered plus buffered is the edited form of what was consumed", and is never refused by a device with room and no finished line |
| `Tty.FillFollows` | src/lib/drivers/chrdev/tty.c:182-197 | the reading loop keeps it and never meets -ENOBUFS |
| `Tty.ReadFollows` | src/lib/drivers/chrdev/tty.c:182-224 | so does a whole read of any size |
| `Tty.SessionFollows` | src/lib/drivers/chrdev/tty.c:121-224 | over every sequence of arrivals and reads, in cooked and raw mode; in cooked mode only finished lines are received |
| `Tty.WholeLineRead` | src/lib/drivers/chrdev/tty.c:182-224 | a finished line that fits the buffer is returned whole by a large enough read, without the end-of-input character, and as end of file if empty |
| `Tty.TypedIsFold` | src/lib/drivers/chrdev/tty.c:129-139 | editing a line is folding its characters |
| `Tty.EraseUndoes` | src/lib/drivers/chrdev/tty.c:129-134 | erase takes back one ordinary character |
| `Tty.FinishedStays` | src/lib/drivers/chrdev/tty.c:129-145 | no later typing changes a finished line |
| `Tty.KillUndoes` | src/lib/drivers/chrdev/tty.c:136-139 | clearing takes back everything since the last line end |
| `TtyLines.UneditedInput` | src/lib/drivers/chrdev/tty.c:155-178 | input without bytes 4, 8, 21 and 127 stays as typed, in lines that end with byte 10 |
| `TtyLines.PlainTyped` | src/lib/drivers/chrdev/tty.c:155-178 | ordinary bytes are what the line holds |
| `TtyLines.TypedAndRead` | src/lib/drivers/chrdev/tty.c:182-224 | a read of any size gets the line as typed, less what bytes 8 and 127 erased, with its newline or, behind byte 4, without |
| `TtyLines.ClearedAndRead` | src/lib/drivers/chrdev/tty.c:182-224 | byte 21 takes the whole line back |
| `TtyLines.UnfinishedRead` | src/lib/drivers/chrdev/tty.c:182-224 | without an end of the line a read answers -15 and what was typed stays |
| `TtyLines.RawRead` | src/lib/drivers/chrdev/tty.c:182-224 | in raw mode every byte passes, up to 256 in one read |
| `TtyLines.TypeAndRead` | src/lib/drivers/chrdev/tty.c:121-224 | the same in the device and the reader's buffer |
| `TtyDriver.Memmove` | src/lib/core/string.c:20-36 | overlap-safe in both directions |
| `TtyDriver.Memcpy` | src/lib/core/string.c:8-15 | copies between distinct buffers |
| `TtyDriver.Device.AddToInbuf` | src/lib/drivers/chrdev/tty.c:121-127 | stores one byte or reports a full buffer |
| `TtyDriver.Device.Backspace` | src/lib/drivers/chrdev/tty.c:129-134 | drops the last byte if there is one |
| `TtyDriver.Device.Clearline` | src/lib/drivers/chrdev/tty.c:136-139 | empties the buffer |
| `TtyDriver.Device.EndOfInput` | src/lib/drivers/chrdev/tty.c:141-145 | ends the line, and marks end of file if it is empty |
| `TtyDriver.Device.InChar` | src/lib/drivers/chrdev/tty.c:147-178 | the search through the special characters does what the line discipline says |
| `TtyDriver.Device.Read` | src/lib/drivers/chrdev/tty.c:182-224 | returns, stores and leaves buffered what the line discipline says |
| `Sprintf.OutChar` | src/lib/core/sprintf.c:83-87 | stores a character only in bounds and advances either way |
| `Sprintf.OutPad` | src/lib/core/sprintf.c:90-94 | sends a run of padding |
| `Sprintf.OutStr` | src/lib/core/sprintf.c:97-101 | sends a string |
| `Sprintf.OutPadded` | src/lib/core/sprintf.c:117-142 | sends prefix and value padded to the field width |
| `Format.PaddedParts` | src/lib/core/sprintf.c:117-142 | the text is as long as the wider of field and value, and the padding is spaces behind, zeros between prefix and value, or spaces in front |
| `Sprintf.StrToUpper` | src/lib/core/sprintf.c:159-162 | upper-cases a terminated string in place |
| `Sprintf.DecodeDigits` | src/lib/core/sprintf.c:179-185 | digits in reverse |
| `Sprintf.Itoa` | src/lib/core/sprintf.c:176-203 | the terminated numeral of a value, with precision and octal prefix |
| `Sprintf.OutSigned` | src/lib/core/sprintf.c:269-289 | a signed conversion |
| `Sprintf.OutUnsigned` | src/lib/core/sprintf.c:291-318 | an unsigned conversion in any base, with its prefix |
| `Sprintf.OutString` | src/lib/core/sprintf.c:243-257 | a string conversion, cut at the precision |
| `Sprintf.OutConversion` | src/lib/core/sprintf.c:408-424 | each conversion character sends the text it stands for |
| `Sprintf.Modifier` | src/lib/core/sprintf.c:356-406 | one flag, digit, star, dot or length modifier |
| `Sprintf.ScanSpecifier` | src/lib/core/sprintf.c:340-406 | the specifier loop, within its debugging copy |
| `Sprintf.ProcessConversion` | src/lib/core/sprintf.c:340-431 | parses one specifier and sends its conversion, or refuses it and stores nothing |
| `Sprintf.OutNext` | src/lib/core/sprintf.c:440-448 | one ordinary character or conversion of the format |
| `Sprintf.Snprintf` | src/lib/core/sprintf.c:434-458 | for every format, arguments and size: the length of the unbounded text, its first characters and a terminator in the buffer, and nothing at or beyond n |
| `Sprintf.FileVprintf` | src/lib/drivers/vfs_file.c:140-166 | formats once, or twice when the text has 256 characters or more, and writes the whole text |
| `FormatText.DigitsMean` | src/lib/core/sprintf.c:170-186 | the digits of a number have its positional value in the base, and no zero in front |
| `FormatText.NumeralMeans` | src/lib/core/sprintf.c:176-203 | with zeros up to the precision and the octal prefix the value is the same |
| `FormatText.SignedShown` | src/lib/core/sprintf.c:269-289 | d and i: sign, digits of the narrowed value in base 10, padding |
| `FormatText.UnsignedShown` | src/lib/core/sprintf.c:291-318 | u, o, x, X, b and B: prefix, digits of the narrowed value in base 10, 8, 16 or 2 and the letter's case, padding |
| `FormatText.PointerShown` | src/lib/core/sprintf.c:320-332 | p: 0x and base 16, whatever the flags |
| `FormatText.StringShown` | src/lib/core/sprintf.c:243-266 | s and c: the string cut at the precision, the character |
| `FormatPieces.DirectiveParsed` | src/lib/core/sprintf.c:340-406 | a directive as it is written, with any flags, width, precision, stars and length modifier, is parsed to what they say |
| `FormatPieces.DirectiveRendered` | src/lib/core/sprintf.c:340-431 | and produces the text that says, with its own arguments |
| `FormatPieces.WholeFormat` | src/lib/core/sprintf.c:434-458 | a format of characters, doubled percent signs and directives produces their texts one behind the other |
| `FormatPieces.UnknownStops` | src/lib/core/sprintf.c:428 | any other conversion character stops the format |
| `FormatClient.PrintPieces` | src/lib/core/sprintf.c:434-458 | what a caller of `snprintf` finds in its buffer, and the length it gets |
| `Atoi.Atoi` | src/lib/core/stdlib.c:5-23 | skips spaces, then reads decimal or prefixed hexadecimal digits |
| `Atoi.SignedRoundTrip` | src/lib/core/sprintf.c:269-289 | for any width, precision and flags a signed number below 2^31 in size reads back as itself if and only if it is zero, or positive and no plus sign was asked for |
| `Atoi.UnsignedRoundTrip` | src/lib/core/sprintf.c:291-318 | for any width, precision and flags an unsigned decimal number below 2^31 reads back as itself |
| `Atoi.HexRoundTrip` | src/lib/core/sprintf.c:291-318 | so does one in alternate-form hexadecimal of either case |
| `AtoiFacts.AtoiDecimal` | src/lib/core/stdlib.c:5-23 | spaces and decimal digits read as their value modulo 2^32, taken as signed |
| `AtoiFacts.AtoiHexadecimal` | src/lib/core/stdlib.c:5-23 | so do hexadecimal digits of either case behind 0x or 0X |
| `CommandLine.StartsAreWords` | src/kernel/kshell.c:63-87 | the strings at the positions the scan records are the words of the line |
| `CommandLine.SplitJoin` | src/kernel/kshell.c:63-87 | words joined with any whitespace are found again, with or without whitespace ahead of the first word and behind the last |
| `CommandLine.BreakCmdline` | src/kernel/kshell.c:63-87 | leaves the words of the line, ended by a null, or fails with -E2BIG exactly when they do not fit |
| `CommandLine.ScanLine` | src/kernel/kshell.c:68-83 | the loop over the line |
| `CommandLine.ScanChar` | src/kernel/kshell.c:71-82 | one character of it |
| `ProcessStack.Push` | src/lib/arch/i386/abi.h:16-20 | stores a word below the stack pointer |
| `ProcessStack.PushStr` | src/kernel/process.c:167-187 | a terminated copy on whole stack slots below the pointer; for a null string null, and nothing pushed |
| `ProcessStack.PushStrings` | src/kernel/process.c:192-195 | copies apart from each other, each below the one before |
| `ProcessStack.PushPointers` | src/kernel/process.c:200-201 | the pointers in order |
| `ProcessStack.PushArgs` | src/kernel/process.c:189-212 | count, null-ended vector and strings, nothing else changed |
| `ProcessStack.StartUp` | src/lib/sys/i386-munix/crt0.S:3-23 | the start-up code takes the count and the vector's address from the stack |
| `ProcessStack.LayoutSeen` | src/lib/sys/i386-munix/crt0.S:8-21 | what the kernel laid out is what `main` sees: count, null-ended vector, equal and disjoint strings |
| `ProcessStack.Launch` | src/kernel/process.c:189-254 | from the typed line to the parameters of `main`: its words |
| `CommandBytes.SplitBytes` | src/kernel/kshell.c:63-87 | words of bytes 33 to 126 with runs of bytes 9 to 13 and 32 between them are found again |
| `CommandBytes.LineParts` | src/kernel/kshell.c:68-83 | every line of such bytes is of that form |
| `CommandBytes.LaunchTyped` | src/kernel/process.c:189-254 | from such a line to memory: count, little-endian addresses, words with their nulls, and a null address, or -10 when they do not fit |
| `Cpio.Aligned` | src/lib/drivers/fs/cpiofs.c:163-176 | every header and all data start on a multiple of four, and entries do not overlap |
| `Cpio.Unique` | src/lib/drivers/fs/cpiofs.c:233-253 | the bytes of an archive determine its entries and its end |
| `Cpio.NameLoopEnds` | src/lib/drivers/fs/cpiofs.c:214-218 | the loop that reads a name ends if and only if the name is empty or all of it, up to the buffer's size, is on the disk |
| `Cpio.SkipsData` | src/lib/drivers/fs/cpiofs.c:255-259 | the signed distance of the skip is the padded size exactly if that is below 2^31, negative from there on, and zero for the last sizes below 2^32 |
| `Cpio.BadSizeSkipsBack` | src/lib/drivers/fs/cpiofs.c:94-113 | a file size that is no number moves the search back by eight |
| `Cpio.PiecesAreData` | src/lib/drivers/fs/cpiofs.c:378-399 | reads of any sizes return consecutive pieces of the data |
| `CpioReader.RamdiskRead` | src/lib/drivers/chrdev/ramdisk.c:60-74 | copies what is there, up to the count, and advances the offset |
| `CpioReader.DiskFile.Read` | src/lib/drivers/vfs_file.c:92-97 | reads at the position and moves it |
| `CpioReader.DiskFile.Pread` | src/lib/drivers/vfs_file.c:99-104 | reads elsewhere and does not |
| `CpioReader.CpioAtoi` | src/lib/drivers/fs/cpiofs.c:94-113 | the positional value of the digits as a 32-bit integer, or -EINVAL for any other character |
| `CpioReader.ReadHeaderRaw` | src/lib/drivers/fs/cpiofs.c:130-160 | what the disk has of the header, with zeros behind its end, or -EINVAL at the end of the disk or without the magic number |
| `CpioReader.DecodeSizes` | src/lib/drivers/fs/cpiofs.c:163-176 | both sizes, also when the decoder fails and its error code is taken for a size, and their paddings |
| `CpioReader.ReadPathname` | src/lib/drivers/fs/cpiofs.c:209-230 | whenever its loop ends: the name, the rest of the buffer unchanged, and the position behind the padding, or -EOVERFLOW when it does not fit |
| `CpioReader.ReadHeader` | src/lib/drivers/fs/cpiofs.c:233-253 | any header whose name comes to an end is decoded field by field, cut off or not, with its name and whether it is the trailer; no header gives -EINVAL, a long name -EOVERFLOW |
| `CpioReader.ReadName` | src/lib/drivers/fs/cpiofs.c:238-250 | the part of a header that depends on its sizes, whatever they are |
| `CpioReader.Header.DescribesHeld` | src/lib/drivers/fs/cpiofs.c:233-253 | a header decoded at an entry describes that entry |
| `CpioReader.SkipData` | src/lib/drivers/fs/cpiofs.c:255-259 | moves the position by the signed distance |
| `CpioReader.Look` | src/lib/drivers/fs/cpiofs.c:266-283 | what the next header means for the search |
| `CpioReader.Visit` | src/lib/drivers/fs/cpiofs.c:270-281 | one turn of the search |
| `CpioReader.VisitNext` | src/lib/drivers/fs/cpiofs.c:271-281 | one turn of the search ends it or passes one more entry |
| `CpioReader.FindPath` | src/lib/drivers/fs/cpiofs.c:266-283 | stops at the first entry with the name; otherwise -ENOENT behind the trailer, or the error the archive ends with |
| `CpioReader.OpenPath` | src/lib/drivers/fs/cpiofs.c:334-370 | opens that entry at the place and with the size its header gives; an empty path means the root |
| `CpioReader.CpioFile.Read` | src/lib/drivers/fs/cpiofs.c:378-399 | returns the next piece of the data, as far as the disk has it, and moves behind it |
| `CpioReader.CpioFile.ReadAll` | src/lib/drivers/fs/cpiofs.c:378-399 | reads of any sizes, one behind the other, return consecutive pieces |
| `CpioReader.OpenAndRead` | src/lib/drivers/fs/cpiofs.c:334-399 | after opening, any sequence of reads from the start returns the data of the first entry with the name, up to the sum of the sizes and the end of the disk |
| `CpioArchive.FieldValue` | src/lib/drivers/fs/cpiofs.c:94-115 | eight digits of either case, by their byte codes, read as their value in base 16 |
| `CpioArchive.HeaderParts` | src/lib/drivers/fs/cpiofs.c:43-58 | where the two size fields stand in a written header |
| `CpioArchive.MemberHeld` | src/lib/drivers/fs/cpiofs.c:233-259 | a member as a writer lays it out is an entry with its data, and the next one follows it |
| `CpioArchive.ArchiveHeld` | src/lib/drivers/fs/cpiofs.c:266-283 | so is a whole archive, up to its end marker |
| `CpioArchive.ReadBack` | src/lib/drivers/fs/cpiofs.c:334-399 | what is archived is read back, in pieces of any sizes, from the first file with the name; -33 without one |

## Left out

- Page attributes: the flags argument of map is the twelve attribute bits; address bits passed in it are not modelled.
- Page trace and debug output, and the `vaddr` field of a pool page (`physpage_access`, `physpage_close`), which nothing reads back.
- A space whose directory was freed: it leaves the set of live spaces, and nothing is claimed about later calls on it beyond `DeadRootDangles`.
- PageMap.PageMap.UnmapRecursive: the -ENOMEM returns for a table outside the pool cannot happen under the invariant and have no branch in the method.
- Several processes: `process_load_path`, `process_close` and `process_exit` do not tear down sibling threads, so the machine runs one process's lifetime.
- Next-tid overflow: creation assumes fewer than 2^31 - 1 threads were ever created.
- Yield and preemption counters, stack and start addresses of a thread are stored and not used, and are left out of its record.
- Hardware: register save and restore, interrupt entry, timers, ports and segment tables; a context switch is a change of the running thread.
- Scheduler.Kernel.ThreadSwitch: the return for a missing incoming thread and the error for one that cannot run are excluded by what its only caller guarantees.
- Going from a link to the thread it is embedded in is a constant field of the link, not pointer arithmetic.
- User thread creation: the system calls behind `thrd_create` and `thrd_join`; a joined thread whose status is negative keeps its slot.
- Philosophers: the `-e` option, the delay loops, what is printed, and the `have_left` and `have_right` flags, which only choose characters to print.
- Terminal echo, and switching between cooked and raw mode while input is pending.
- Tty.WholeLineRead: a line of 256 bytes without its end is never delivered, because reads answer -EAGAIN for ever; nothing is claimed for it.
- Sprintf.Snprintf: field widths, precisions and text lengths are taken below 2^31, where the C arithmetic is defined; a specifier of 32 or more characters, an integer precision of 128 or more, and the most negative 64-bit value, which overrun fixed buffers or cannot be negated, are excluded by `Fits`.
- Atoi.Atoi: numbers are read with 32-bit wrap-around, as unsigned arithmetic stored into an int does.
- FormatPieces.DirectiveParsed: directives whose flags, width, precision and length modifier stand in another order, which the code accepts; `Format.Parse` says what they come to.
- What the driver does with the text that `file_vprintf` hands to `file_write`.
- ProcessStack.PushArgs: assumes room on the stack, which the kernel does not check; all arguments are strings, and the stack grows down.
- CpioReader.ReadPathname: names for which its loop never ends; `Cpio.NameLoopEnds` says which.
- CpioReader.FindPath: archives in which a file size is no number or is 2^31 or more (`Cpio.SkipsData`), or a name is empty, not terminated or holds a null; file positions stay below 2^31, where the C type is defined.
- CpioReader.CpioFile.Read: for reads through `file_read`; `file_pread` on an archive member clips with the file position instead of the given offset.
- The table of four open archive files, file types and device numbers of entries, directory listing and mounting.
- ELF loading, shell commands, the other programs, logging and the string forms of page entries and queues.
