# Tenok kernel: a verified model

Tenok is a small real-time operating system kernel. This project models its memory
allocators, its scheduler with wait queues, the blocking objects built on them, its byte
FIFOs and pipes, its block-chained files with the ROM image builder, and its tick
arithmetic, and proves what these promise over all inputs and all runs.

Each part has two layers. A *theory* states what the part stands for: a set of free
pages, a placement of threads on lists, a bounded priority FIFO, a flat array of bytes.
The *code* is a class whose methods keep the source's loops and update its fields, arrays
and bytes in place; every method is proved against the theory, and the run theorems are
proved about the theory.

| file | part |
|---|---|
| `Basics.dfy` | vocabulary shared by all parts |
| `Bitops.dfy` | bitmaps in 32-bit words |
| `Buddy.dfy`, `PageAllocator.dfy`, `PageRuns.dfy` | the buddy page allocator: theory, code, whole runs |
| `Slab.dfy` | slab caches of one-page slabs, on top of the page allocator |
| `IntrusiveList.dfy` | circular doubly linked lists on the heap |
| `Scheduling.dfy`, `SchedulerSteps.dfy`, `SchedulerRuns.dfy`, `SchedulerPolicy.dfy`, `Kernel.dfy` | scheduler: steps, invariant, runs, policy, code |
| `ListSweeps.dfy` | the scheduler's sweeps on the linked lists |
| `PriorityFifo.dfy`, `Blocking.dfy`, `BlockingRuns.dfy`, `Outcomes.dfy`, `MessageQueue.dfy`, `SyncCode.dfy` | semaphores, mutexes and message queues: reference queue, steps, whole runs, what each attempt does to its caller, storage, code |
| `KFifo.dfy`, `Pipe.dfy` | the kernel FIFO and the pipe |
| `BlockChain.dfy`, `RegFile.dfy`, `RomFs.dfy` | block chains in byte memory, root file system files, ROM image |
| `Timers.dfy` | countdowns, the clock, interval timers |

Modelling decisions:

- A section that the kernel runs with preemption disabled is one atomic step; a run is any
  sequence of such steps. One pass of a retry loop (`down`, `mutex_lock`, `mq_send`,
  `mq_receive`) is one step, so barging callers and any interleaving are covered. The
  threads that were woken and have yet to retry are a ghost set.
- The page allocator is parameterised by the largest order and the number of pages of that
  order, for every region that starts at a multiple of the largest page: `free_pages` masks
  absolute addresses.
- Addresses are unbounded naturals, with the bounds of the source's 32-bit (and, for the
  image builder, 64-bit) words stated where they are stored. Header words are stored and
  read as bytes.
- Thread identifiers stand for `struct thread_info` pointers, and the queues of the
  scheduler are sequences of them; `IntrusiveList.dfy` proves that the pointer operations
  act on rings of nodes as on sequences, and `ListSweeps.dfy` that the two sweeps of the
  scheduler on such rings are those of the model.

Where the code departs from its documentation or from the obvious intent, the model follows
the code, proves exactly when the intent is met, and gives an input where it is not:

- a write past a hole in a file lands in the wrong block (`RegFile.LandsIff`,
  `RegFile.RootFs.WriteThenRead`, `RegFile.HoleExample`);
- the recorded file size grows by the size requested (`RegFile.RecordedSizeIff`,
  `RegFile.OverwriteExample`);
- reads run on after the end of a file of the image (`RomFs.RomRead`,
  `RomFs.RunOnExample`);
- the space guard of the image builder counts headers as space
  (`RomFs.GuardAdmitsOverrun`, `RomFs.OverrunExample`);
- finish_wait sends a ready thread to the end of its queue (`SchedulerPolicy.TurnKeptIff`,
  `SchedulerPolicy.SentBackExample`);
- the reset after priority inheritance restores the wrong priority
  (`SchedulerSteps.RestoredIff`, `SchedulerSteps.InheritanceNotUndone`);
- timer intervals are not checked (`Timers.SecondExpiryIff`,
  `Timers.NegativeIntervalCounterexample`).

Two further differences are part of contracts: a receive buffer must have exactly the
message size (`SyncCode.MqReceiveAttempt`), and a timer armed with zero expires on the
first tick instead of being disarmed (`Timers.ArmedTimer`).

## Model

| member | source | states |
|---|---|---|
| `Bitops.BitmapSetBit` | include/common/bitops.h:25-38 | rewriting one word in place sets exactly one bit of the whole bitmap |
| `Bitops.BitmapClearBit` | include/common/bitops.h:20-33 | rewriting one word in place clears exactly one bit of the whole bitmap |
| `Bitops.FindFirst` | include/common/bitops.h:46-68 | the word-skipping search returns the least index below the size whose bit has the wanted value, or the size if there is none |
| `Bitops.BitmapExtensionality` | include/common/bitops.h:40-44 | bitmaps that agree on every bit hold the same words |
| `Buddy.AddPage` | kernel/mm/page.c:187-217 | adding a page whose buddy is not free keeps the free pages canonical and adds exactly its units |
| `Buddy.RemovePage` | kernel/mm/page.c:159-217 | taking out a free page keeps the rest canonical and takes out exactly its units |
| `Buddy.FreeUnitsMeanFreePage` | kernel/mm/page.c:159-185 | an aligned page all of whose units are free lies inside one free page: coalescing leaves no run of free units divided |
| `Buddy.FreeIffMaximal` | kernel/mm/page.c:123-217 | in a canonical state a page is free if and only if it is a maximal aligned page of free units |
| `Buddy.CanonicalForm` | kernel/mm/page.c:123-217 | a canonical set of free pages is the unique decomposition of its units into maximal aligned pages |
| `Buddy.DecompositionIsCanonical` | kernel/mm/page.c:123-217 | every set of units has such a decomposition, it is canonical and covers exactly these units |
| `PageAllocation.AddressRoundTrip` | kernel/mm/page.c:143-157 | the page index computed from the address of a page is that page |
| `PageAllocation.PageBytes` | kernel/mm/page.c:143-157 | a unit belongs to a page if and only if its 256 bytes lie in the byte range of the page, and this range is inside the region |
| `PageAllocation.MaskGivesParent` | kernel/mm/page.c:203-204 | masking the address of a page to the next order gives the address of its parent, for a region aligned to the largest page |
| `PageAllocation.SplitStep` | kernel/mm/page.c:123-136 | halving a page keeps the rest canonical, the free units the same, and its left half the lowest page of its order |
| `PageAllocation.NoPageNoUnits` | kernel/mm/page.c:159-185 | with no free page of an order or above, no aligned page of that order consists of free units |
| `PageAllocation.PageAllocator.constructor` | kernel/mm/page.c:20-58 | the initial bitmaps mark every page of the top order and are canonical |
| `PageAllocation.PageAllocator.FindFirstFreePage` | kernel/mm/page.c:108-121 | the lowest free page of an order, or a negative result exactly when the order has none |
| `PageAllocation.PageAllocator.SplitFirstFreePage` | kernel/mm/page.c:123-136 | the lowest free page of an order is replaced by its two halves and nothing else changes |
| `PageAllocation.PageAllocator.SplitDown` | kernel/mm/page.c:159-185 | the splitting loop cuts the leftmost page of the wanted order from the best fitting free page, keeping the free units and a canonical rest |
| `PageAllocation.PageAllocator.AllocPages` | kernel/mm/page.c:159-185 | fails if and only if no aligned page of that order consists of free units; otherwise returns the address of the leftmost part of the best fitting page, all of whose bytes are inside the region, and what stays free is the decomposition of the remaining units |
| `PageAllocation.PageAllocator.FreePages` | kernel/mm/page.c:187-217 | the coalescing loop makes exactly the units of the page free again and leaves the decomposition of all free units |
| `PageAllocation.PageAllocator.AllocThenFree` | kernel/mm/page.c:159-217 | an allocation followed at once by the free of its result restores every bitmap word |
| `PageAllocation.PageAllocator.TotalFreeSize` | kernel/mm/page.c:89-106 | the size counted byte by byte from the bitmaps is 256 times the number of free units |
| `PageAllocation.CountBytes` | kernel/mm/page.c:89-106 | the byte loop counts every set bit of a bitmap once |
| `PageRuns.RunInv` | kernel/mm/page.c:159-217 | in every state of every run the live pages are in the region and disjoint, and the free pages are the decomposition of all other units |
| `PageRuns.LiveBytes` | kernel/mm/page.c:143-185 | in every state of every run the byte ranges of the live pages are inside the region and disjoint |
| `PageRuns.InvTiles` | kernel/mm/page.c:89-106 | live and free pages tile the region exactly, and their sizes add up to it |
| `PageRuns.StateDeterminedByUnits` | kernel/mm/page.c:159-217 | states of any two runs with the same free units have the same bitmaps |
| `PageRuns.FreeingAllRestores` | kernel/mm/page.c:187-217 | once everything has been freed, in any order, the initial state is back |
| `PageRuns.AllocationComplete` | kernel/mm/page.c:159-185 | in every reachable state an allocation can be served if and only if some aligned page of that order consists of free units |
| `PageRuns.FreeUndoesAlloc` | kernel/mm/page.c:159-217 | freeing the page just allocated restores the state |
| `PageRuns.FreeSizeOfRun` | kernel/mm/page.c:89-106 | in every reachable state the free size is the region less the bytes held by live pages |
| `PageRuns.Execute` | kernel/mm/page.c:159-217 | a call executed on the bitmaps takes exactly one step of the run model |
| `SlabCache.ObjectPlace` | kernel/mm/slab.c:29-40 | an object lies inside its page, clear of the header, and its address gives back the slab and the index |
| `SlabCache.SlabOfIsMask` | kernel/mm/slab.c:29-33 | rounding an address down to a page is masking its low eight bits |
| `SlabCache.LiveDisjoint` | kernel/mm/slab.c:107-155 | two live objects never overlap, stay inside their pages and never touch a header |
| `SlabCache.LiveIff` | kernel/mm/slab.c:29-40 | an address is a live object if and only if the slab and index computed from it name a set bit and give the address back |
| `SlabCache.TakeLists` | kernel/mm/slab.c:107-155 | the list moves of an allocation keep every slab on the one list its count calls for |
| `SlabCache.ReturnLists` | kernel/mm/slab.c:166-189 | the list move of a free keeps every slab on the one list its count calls for |
| `SlabCache.CacheRemove` | kernel/mm/slab.c:157-164 | unlinking a slab keeps the lists of all others |
| `SlabCache.NoneFree` | kernel/mm/slab.c:107-135 | the partial and free lists are both empty if and only if every slab is full |
| `SlabCache.KmemCache.constructor` | kernel/mm/slab.c:70-85 | a new cache has no slab and no live object |
| `SlabCache.KmemCache.Grow` | kernel/mm/slab.c:88-105 | a new empty slab in a page that was free, at the end of the free list; it fails if and only if no unit is free |
| `SlabCache.KmemCache.MarkFirst` | kernel/mm/slab.c:137-145 | the first clear bit is set and the count stays the number of clear bits |
| `SlabCache.KmemCache.Alloc` | kernel/mm/slab.c:107-155 | fails if and only if every slab is full and no page is left; otherwise exactly the result becomes live, and a page is taken exactly when its slab is new, from the units that were free |
| `SlabCache.KmemCache.Free` | kernel/mm/slab.c:157-189 | exactly this object stops being live, and the page goes back to the page allocator if and only if no live object of its slab is left |
| `SlabCache.CachesApart` | kernel/mm/slab.c:107-155 | objects of two caches on one page allocator never overlap |
| `SlabCache.AllocBeside` | kernel/mm/slab.c:107-155 | an allocation from one cache leaves every other cache of the page allocator as it was and without a common slab |
| `SlabCache.FreeBeside` | kernel/mm/slab.c:166-189 | a free in one cache leaves every other cache as it was and without a common slab |
| `IntrusiveList.ListEmpty` | include/common/list.h:131-134 | true if and only if the ring is the head alone |
| `IntrusiveList.ListAdd` | include/common/list.h:176-182 | the pointer updates append the node to the ring |
| `IntrusiveList.ListDel` | include/common/list.h:153-157 | the pointer updates take the node out of the ring and leave its own pointers |
| `IntrusiveList.ListMove` | include/common/list.h:190-194 | the node moves to the tail of another or the same list, and all lists stay disjoint rings with the others unchanged |
| `IntrusiveList.SweepSafe` | include/common/list.h:79-81 | a sweep that moves current nodes away terminates, visits exactly the original nodes, once each and in order, keeps the order of those left behind and appends the others in order to their destinations |
| `IntrusiveList.SweptStep` | include/common/list.h:79-81 | the lists after one more visited node are those before with at most that node moved |
| `Scheduling.RelinkPlaced` | kernel/kernel.c:604-668 | taking a thread off the list it is on and appending it to a list its new record fits keeps every thread on exactly one list |
| `Scheduling.FirstHighest` | kernel/kernel.c:628-652 | the thread wake_up takes has the highest priority on the list and is the first such |
| `Scheduling.HighestReady` | kernel/kernel.c:3148-3154 | the search finds the highest priority with a non-empty ready list, or -1 if all are empty |
| `Scheduling.FreeSlot` | kernel/kernel.c:350-446 | the lowest unused entry of the thread table |
| `SchedulerSteps.WakeManyWoken` | kernel/kernel.c:654-668 | a sweep moves exactly the given threads, each to the ready list of its own priority behind what was there, and keeps the invariant |
| `SchedulerSteps.PrepareToWaitInv` | kernel/kernel.c:604-614 | blocking keeps the placement invariant |
| `SchedulerSteps.WakeUpInv` | kernel/kernel.c:628-652 | wake-one keeps it |
| `SchedulerSteps.WakeUpAllInv` | kernel/kernel.c:654-668 | wake-all keeps it |
| `SchedulerSteps.DelayTicksInv` | kernel/kernel.c:795-810 | sleeping keeps it |
| `SchedulerSteps.TicksUpdateInv` | kernel/kernel.c:2903-2912 | a tick keeps it |
| `SchedulerSteps.JoinInv` | kernel/kernel.c:2029-2070 | joining keeps it |
| `SchedulerSteps.ExitInv` | kernel/kernel.c:670-701 | exiting with its wake-up of all joiners keeps it |
| `SchedulerSteps.InheritPriorityInv` | kernel/kernel.c:2331-2368 | raising an owner's priority keeps every ready thread on the list of its own current priority |
| `SchedulerSteps.ResetInheritedPriorityInv` | kernel/kernel.c:2370-2381 | the reset keeps the invariant |
| `SchedulerSteps.InheritRaises` | kernel/kernel.c:2331-2368 | the owner's priority becomes the maximum of its own and the waiter's, and no other priority changes |
| `SchedulerSteps.InheritRecords` | kernel/kernel.c:2331-2368 | inheritance changes no record but the owner's, and of that only the priorities; wait and join lists stay |
| `SchedulerSteps.RestoredIff` | kernel/kernel.c:2331-2381 | inheritance followed by the reset gives the owner its priority back if and only if the priority it has saved is the one it has |
| `SchedulerSteps.InheritanceNotUndone` | kernel/kernel.c:2341-2344 | a thread of priority 3 that a thread of priority 5 waits for ends up with priority 0 |
| `SchedulerSteps.CreateInv` | kernel/kernel.c:350-446 | creating a thread, or refusing to for its attributes, the table or the stack, keeps the invariant |
| `SchedulerSteps.ScheduleInv` | kernel/kernel.c:3129-3164 | rescheduling keeps the invariant |
| `SchedulerRuns.BootInv` | kernel/kernel.c:350-446 | the table with one running thread satisfies the invariant |
| `SchedulerRuns.NextInv` | kernel/kernel.c:604-701 | every step keeps the invariant |
| `SchedulerRuns.RunInv` | kernel/kernel.c:3129-3164 | every state of every run satisfies the invariant |
| `SchedulerRuns.Placement` | kernel/kernel.c:604-668 | a live thread is on exactly one scheduling list unless it is running; it is ready if and only if it is on the ready list of its own priority; ticks left to sleep imply the sleep list |
| `SchedulerRuns.NextStays` | kernel/kernel.c:604-701 | a step moves no thread but those it is about |
| `SchedulerRuns.NextWaitList` | kernel/kernel.c:604-668 | a wait list changes only by steps on that list |
| `SchedulerPolicy.ReadyIffRunnable` | kernel/kernel.c:3129-3146 | the ready lists that are searched hold exactly the runnable threads, each at its priority |
| `SchedulerPolicy.CanScheduleIff` | kernel/kernel.c:3148-3154 | the search succeeds if and only if some thread is runnable |
| `SchedulerPolicy.ScheduleMaximal` | kernel/kernel.c:3129-3164 | the dispatched thread is runnable and of maximal priority among all runnable threads |
| `SchedulerPolicy.CreateRunnable` | kernel/kernel.c:350-446 | a thread is created if and only if its attributes are valid, a slot is free and its stack can be allocated, with the error code of the first of these that fails; it is then runnable at its priority, joinable as asked, with no joiner, and no other thread changes |
| `SchedulerPolicy.WakeOneReleases` | kernel/kernel.c:628-652 | exactly one waiter of the highest priority becomes ready and all others stay on the list in order; nothing happens on an empty list |
| `SchedulerPolicy.WakeAllReleases` | kernel/kernel.c:654-668 | every waiter becomes ready, the list is empty, and no other thread changes |
| `SchedulerPolicy.ExitReleases` | kernel/kernel.c:670-701 | the exiting thread is no longer runnable, exactly its joiners become ready |
| `SchedulerPolicy.JoinOutcome` | kernel/kernel.c:2029-2070 | a joiner of a live joinable thread that does not wait for it is last on the join list and waits; every other call changes nothing, and no other thread is touched |
| `SchedulerPolicy.JoinerWaits` | kernel/kernel.c:670-701 | in every run a joiner stays on the join list and unrunnable as long as the joined thread does not exit |
| `SchedulerPolicy.RunnableStays` | kernel/kernel.c:604-701 | a runnable thread stays runnable unless it gives that up itself |
| `SchedulerPolicy.IdleKeepsScheduling` | kernel/kernel.c:3148-3154 | with a thread that never blocks, the priority search never falls through in any state of any run |
| `SchedulerPolicy.NextKeepsTurn` | kernel/kernel.c:604-701 | between reschedulings a ready thread keeps its priority and never moves back in its queue, if and only if finish_wait does not send it back and no inheritance raises it |
| `SchedulerPolicy.ScheduleForward` | kernel/kernel.c:3129-3164 | a rescheduling at the level of a ready thread dispatches it if it is first and else moves it exactly one place forward |
| `SchedulerPolicy.RoundRobin` | kernel/kernel.c:3129-3164 | a ready thread with i threads before it is dispatched within i + 1 reschedulings, whatever happens in between, if no thread of higher priority is runnable at them and finish_wait does not send it back |
| `SchedulerPolicy.TurnExact` | kernel/kernel.c:3129-3164 | the bound is exact: reschedulings alone do not dispatch it before |
| `SchedulerPolicy.TurnKeptIff` | kernel/kernel.c:616-626 | after any one step the next i + 1 reschedulings dispatch the thread if and only if the step was not a finish_wait of it while it was ready and not last |
| `SchedulerPolicy.SentBackExample` | kernel/kernel.c:616-626 | finish_wait of the first of two ready threads puts it behind the second |
| `SchedulerPolicy.DelayNotEarly` | kernel/kernel.c:795-810 | after delay_ticks(n) the thread is on the sleep list with exactly the remaining ticks until the n-th tick |
| `SchedulerPolicy.DelayUntilSchedule` | kernel/kernel.c:2903-2912 | until the first rescheduling after the n-th tick the thread is on the sleep list with exactly the remaining ticks, if and only if finish_wait has not made it ready, which can only happen once its ticks are over |
| `SchedulerPolicy.DelayNotLate` | kernel/kernel.c:3135-3146 | in every run the first rescheduling after the n-th tick makes it ready or dispatches it |
| `ListSweeps.WokenBehind` | kernel/kernel.c:654-668 | the threads woken by a sweep stand on the ready list of their priority behind what was there, in the order of the sweep |
| `ListSweeps.SweepMirrors` | kernel/kernel.c:3136-3146 | after a sweep on the rings of nodes they hold, node by node, the lists of the model after its sweep |
| `ListSweeps.SweepSleepers` | kernel/kernel.c:3136-3146 | the sweep of the sleep list on linked nodes is that of the model |
| `ListSweeps.WakeUpAll` | kernel/kernel.c:654-668 | wake_up_all on linked nodes is that of the model |
| `KernelCode.Kernel.PrepareToWait` | kernel/kernel.c:604-614 | the code takes the model's blocking step |
| `KernelCode.Kernel.FinishWait` | kernel/kernel.c:616-626 | the thread becomes ready unless it is the running one |
| `KernelCode.Kernel.ThreadCreate` | kernel/kernel.c:350-446 | the slot found by the search or the error returned, and the model's creation step |
| `KernelCode.Kernel.WakeUp` | kernel/kernel.c:628-652 | the loop wakes the first thread of the highest priority, and no other |
| `KernelCode.Kernel.WakeUpAll` | kernel/kernel.c:654-668 | the sweep wakes every thread of the list in order |
| `KernelCode.Kernel.ThreadJoinHandler` | kernel/kernel.c:670-701 | all joiners become ready and the thread leaves; exactly the joiners that asked for the return value get it |
| `KernelCode.Kernel.DelayTicks` | kernel/kernel.c:795-810 | the code takes the model's sleeping step |
| `KernelCode.Kernel.PthreadJoin` | kernel/kernel.c:2029-2070 | no such thread, a detached one, a cycle of two and success, each if and only if its condition holds; on success the caller is last on the join list and waits, otherwise nothing changes |
| `KernelCode.Kernel.InheritPriority` | kernel/kernel.c:2331-2368 | the sweep of the ready list and the raise are the model's inheritance step |
| `KernelCode.Kernel.ResetInherited` | kernel/kernel.c:2370-2381 | the code takes the model's reset step |
| `KernelCode.Kernel.ThreadsTicksUpdate` | kernel/kernel.c:2903-2912 | every sleeper with ticks left loses exactly one |
| `KernelCode.Kernel.Schedule` | kernel/kernel.c:3129-3164 | stop, sweep, search and dispatch are the model's rescheduling step; the search fails if and only if no thread is runnable |
| `PriorityFifo.Pick` | kernel/mqueue.c:79-101 | the message delivered next is of the highest priority and the oldest of that priority |
| `PriorityFifo.PickIsHead` | kernel/mqueue.c:79-101 | the delivered message is the head of the queue of its priority |
| `PriorityFifo.PickLeavesOthers` | kernel/mqueue.c:79-101 | the queues of the other priorities are untouched, and those above are empty |
| `Blocking.DoSound` | kernel/semaphore.c:23-87 | every call and every scheduler step keeps the no-lost-wakeup invariant of every object |
| `BlockingRuns.StartSound` | kernel/semaphore.c:17-21 | fresh objects without waiters satisfy it |
| `BlockingRuns.RunSound` | kernel/kernel.c:628-652 | it holds in every state of every run: while a thread waits on a side of an object, at least as many woken threads have yet to retry there as could go ahead (the count of a semaphore, a free mutex, messages for readers, free places for writers) |
| `BlockingRuns.WaitersProgress` | kernel/mutex.c:62-111 | whenever a thread waits although a caller could go ahead, some woken thread that has yet to retry is runnable |
| `BlockingRuns.MutexExclusion` | kernel/mutex.c:36-111 | from a successful lock until the owner unlocks, the owner stays the owner, whatever else is attempted |
| `BlockingRuns.SemaphoreBalance` | kernel/semaphore.c:23-87 | the count is the initial value plus successful ups minus completed downs and stays in 0..INT32_MAX-1 |
| `BlockingRuns.QueueOrder` | kernel/mqueue.c:119-191 | over any interleaving, at every priority the messages received followed by those queued are the messages sent, in order: none lost, duplicated or overtaken |
| `BlockingRuns.QueueBounded` | kernel/mqueue.c:156-191 | a queue never holds more messages than its size |
| `Outcomes.DownOutcome` | kernel/semaphore.c:23-41 | a down without a token puts the caller last on the wait list, waiting and not runnable, and changes nothing else; with a token it only takes it |
| `Outcomes.UpOutcome` | kernel/semaphore.c:63-87 | the count grows by one and, once it is positive, exactly the first waiter of the highest priority is made ready; at the limit nothing changes |
| `Outcomes.LockOutcome` | kernel/mutex.c:36-83 | a contended lock puts the caller last on the wait list, raises the owner under inheritance and leaves the owner in place; a free mutex gets the caller as owner, and a caller that has inherited a priority goes back to the saved one |
| `Outcomes.UnlockOutcome` | kernel/mutex.c:85-111 | the owner frees the mutex, exactly the first waiter of the highest priority is made ready and the owner stays running; another caller changes nothing |
| `Outcomes.SendOutcome` | kernel/mqueue.c:156-191 | a full queue puts a blocking sender last on the writers' list and leaves a non-blocking one alone; otherwise the message is queued, exactly the first receiver of the highest priority is made ready and the sender goes on |
| `Outcomes.ReceiveOutcome` | kernel/mqueue.c:119-154 | an empty queue puts a blocking receiver last on the readers' list and leaves a non-blocking one alone; otherwise the message delivered next is taken, exactly the first sender of the highest priority is made ready and the receiver goes on |
| `MessageQueueCode.TakeBuffer` | kernel/mqueue.c:103-117 | moving the first free buffer to a used list keeps the buffers partitioned |
| `MessageQueueCode.ReturnBuffer` | kernel/mqueue.c:79-101 | moving the head of a used list to the free list keeps the buffers partitioned |
| `MessageQueueCode.SendHolds` | kernel/mqueue.c:103-117 | writing into the free buffer adds the message to the queue of its priority and disturbs no stored message |
| `MessageQueueCode.ReceiveHolds` | kernel/mqueue.c:79-101 | the head of the highest non-empty used list is the message the priority FIFO delivers, and the rest is the FIFO without it |
| `MessageQueueCode.MQueue.CountIsUsed` | kernel/mqueue.c:67-77 | cnt is the number of buffers on all used lists together, and the remaining buffers are on the free list |
| `MessageQueueCode.MQueue.constructor` | kernel/mqueue.c:19-59 | all buffers start on the free list, each once |
| `MessageQueueCode.MQueue.FindHighest` | kernel/mqueue.c:79-101 | the downward search ends at the highest priority with a message |
| `MessageQueueCode.MQueue.In` | kernel/mqueue.c:103-117 | the queue contents grow by exactly the message |
| `MessageQueueCode.MQueue.Out` | kernel/mqueue.c:79-101 | the message of the priority FIFO is returned with its priority and taken out |
| `SyncCode.KSemaphore.DownAttempt` | kernel/semaphore.c:23-41 | one pass of down takes the modelled action and acquires if and only if the count is positive; otherwise the caller is last on the wait list, waiting, and the count stays |
| `SyncCode.KSemaphore.DownTrylock` | kernel/semaphore.c:43-61 | succeeds if and only if the count is positive, and never waits |
| `SyncCode.KSemaphore.UpCall` | kernel/semaphore.c:63-87 | takes the modelled action; overflow if and only if the count is at INT32_MAX-1, otherwise the count is one more |
| `SyncCode.KMutex.LockAttempt` | kernel/mutex.c:36-83 | one pass of mutex_lock takes the modelled action and locks if and only if the mutex is free; otherwise the caller is last on the wait list, waiting, and the owner stays |
| `SyncCode.KMutex.UnlockCall` | kernel/mutex.c:85-111 | takes the modelled action; refused without any change if and only if the caller is not the owner, otherwise the mutex is free |
| `SyncCode.MqSendAttempt` | kernel/kernel.c:1937-1983 | each error and the success if and only if its condition holds; on success the message is queued, on ERESTARTSYS the sender is last on the writers' list |
| `SyncCode.MqReceiveAttempt` | kernel/kernel.c:1895-1935 | each error and the success if and only if its condition holds; on success the message of the priority FIFO is returned and taken out, on ERESTARTSYS the receiver is last on the readers' list |
| `KFifoCode.KFifo.constructor` | kernel/kfifo.c:13-32 | an empty queue |
| `KFifoCode.KFifo.Increase` | kernel/kfifo.c:58-64 | the index wraps at the size |
| `KFifoCode.KFifo.In` | kernel/kfifo.c:66-99 | the ring refines a bounded queue that drops its oldest record when full |
| `KFifoCode.KFifo.Out` | kernel/kfifo.c:101-115 | the oldest record is returned and taken out, or nothing happens if there is none |
| `KFifoCode.KFifo.OutPeek` | kernel/kfifo.c:117-137 | the oldest record is returned and stays |
| `KFifoCode.KFifo.PeekLen` | kernel/kfifo.c:189-200 | the length of the oldest record, and 0 for byte streams |
| `KFifoCode.KFifo.Skip` | kernel/kfifo.c:217-224 | exactly the oldest record is dropped |
| `PipeCode.Lossless` | kernel/pipe.c:43-115 | over any interleaving of readers and writers the bytes accepted are the bytes returned followed by those in the ring |
| `PipeCode.Contiguous` | kernel/pipe.c:80-115 | the bytes of each accepted write stand together in the stream, right after everything accepted before |
| `PipeCode.FirstFitting` | kernel/pipe.c:24-41 | the thread woken is the first of the highest priority among those whose request fits |
| `PipeCode.FifoWakeUp` | kernel/pipe.c:24-41 | the loop wakes that thread and no other |
| `PipeCode.FifoWokenReleases` | kernel/pipe.c:24-41 | a waiter whose request fits becomes ready and leaves the list, all others stay on it in order; without one nothing changes |
| `PipeCode.Pipe.Push` | kernel/pipe.c:106-108 | the byte loop appends all bytes: the drop-oldest branch is never taken |
| `PipeCode.Pipe.PullBytes` | kernel/pipe.c:70-72 | the byte loop returns the front of the stream and leaves the rest |
| `PipeCode.Pipe.FifoRead` | kernel/pipe.c:43-78 | everything asked for if and only if it is there; the caller is suspended if and only if less is there and it may block; a non-blocking caller gets what is there, and is refused if and only if that is nothing; which bytes are returned, what stays, and who is woken |
| `PipeCode.Pipe.FifoWrite` | kernel/pipe.c:80-115 | everything given is accepted if and only if it fits; the caller is suspended if and only if it does not and it may block; a non-blocking caller writes what fits, and is refused if and only if that is nothing; which bytes are accepted, and who is woken |
| `BlockChain.HeaderRoundTrip` | kernel/fs/fs.c:354-393 | a header word stored as bytes is read back |
| `BlockChain.FlatChunk` | kernel/fs/reg_file.c:38-76 | inside one block the content is contiguous in memory |
| `BlockChain.PayloadStores` | kernel/fs/reg_file.c:111-159 | a write into a block stores the bytes at the flat position of their file and nowhere else |
| `BlockChain.PayloadKeepsOther` | kernel/fs/reg_file.c:111-159 | a write into a block changes no file that does not own the block |
| `BlockChain.AppendLinks` | kernel/fs/fs.c:354-393 | the header updates of an append link the chain with the new block at its end |
| `RegFile.AppendOk` | kernel/fs/fs.c:354-393 | an append keeps all chains acyclic and disjoint and the content of every file |
| `RegFile.PayloadOk` | kernel/fs/reg_file.c:111-159 | a chunk keeps the whole file system and changes only its own bytes |
| `RegFile.LandsIff` | kernel/fs/reg_file.c:111-122 | a write lands at its own position if and only if it leaves no hole |
| `RegFile.ChunkLands` | kernel/fs/reg_file.c:111-151 | successive chunks land one after the other, and a block is appended only when needed |
| `RegFile.StoredIs` | kernel/fs/reg_file.c:111-154 | the write loop ends with all bytes stored or with those up to the end of the blocks the file can get |
| `RegFile.RecordedSizeIff` | kernel/fs/reg_file.c:156-157 | the recorded size after a write is that of the file if and only if nothing is requested or the bytes there is room for end where the sum does; with room for all, if and only if the write starts at the end of the file |
| `RegFile.OverwriteExample` | kernel/fs/reg_file.c:88-160 | 100 bytes written twice to the start of a file leave a recorded size of 200 |
| `RegFile.RootFs.constructor` | kernel/fs/fs.c:159-203 | an empty file system satisfies the invariant |
| `RegFile.RootFs.AllocBlock` | kernel/fs/fs.c:141-157 | a block that was unused, or none exactly when all are in use |
| `RegFile.RootFs.AppendBlock` | kernel/fs/fs.c:354-393 | the chain grows by one block exactly when one is left; all contents are kept |
| `RegFile.RootFs.GetBlockAddr` | kernel/fs/fs.c:1073-1094 | the walk through the headers gives the address of the block with that index, or NULL past the end |
| `RegFile.RootFs.Read` | kernel/fs/reg_file.c:19-77 | the bytes of the flat content from the position, cut off at the end of the last block, and the new position |
| `RegFile.RootFs.Write` | kernel/fs/reg_file.c:88-160 | how many bytes are stored is given by the state before the call: all there is room for; they are stored where the write lands, no other byte of this or any other file changes, exactly the blocks linked are taken, none without need; when the recorded size is right |
| `RegFile.RootFs.WriteThenRead` | kernel/fs/reg_file.c:19-160 | what was written is read back from its position if and only if the write left no hole (or stored nothing) |
| `RegFile.HoleExample` | kernel/fs/reg_file.c:111-159 | one byte written at position 120 of an empty file is not read back |
| `RomFs.GuardAdmitsOverrun` | tools/mkromfs/mkromfs.c:496-501 | the space guard admits a file that does not fit if and only if its size is more than 120 and at most 128 bytes per free block |
| `RomFs.OverrunExample` | tools/mkromfs/mkromfs.c:496-515 | 12001 bytes pass the guard of an empty image of 100 blocks and need 101 |
| `RomFs.Builder.FillBlocks` | tools/mkromfs/mkromfs.c:526-574 | the import loop links consecutive blocks that hold the content and touches no block before them |
| `RomFs.Builder.ImportFile` | tools/mkromfs/mkromfs.c:471-577 | a file is refused, overruns the block array or is imported exactly according to its size; an import takes the next free blocks and keeps every file and directory block from before |
| `RomFs.Builder.TakeDirBlock` | tools/mkromfs/mkromfs.c:135-167 | the next free block becomes a directory block and holds the given bytes, without a check, and every file imported before is kept |
| `RomFs.Builder.RewriteDirBlock` | tools/mkromfs/mkromfs.c:155-159 | any directory block can be written again at any time, before and after imports and conversions; exactly its bytes change, and no file |
| `RomFs.Builder.ConvertHeaders` | tools/mkromfs/mkromfs.c:378-416 | every link of the file is rebased from host addresses to offsets, and no byte outside the headers of its blocks changes |
| `RomFs.Builder.ConvertFile` | tools/mkromfs/mkromfs.c:378-428 | the converted file is linked by image offsets, all others and the directory blocks stay as they were placed |
| `RomFs.KernelHeader` | kernel/fs/fs.c:1073-1094 | the low 32 bits of a converted 64-bit header are the offset of the next block |
| `RomFs.RomBlockAddr` | kernel/fs/fs.c:1073-1094 | the kernel finds block i of an image file at its offset |
| `RomFs.RomRead` | kernel/fs/reg_file.c:19-77 | a read of an image file returns the bytes of its content from the position, and no more if and only if it asks for no more |
| `RomFs.RunOnExample` | kernel/fs/reg_file.c:38-76 | two bytes are read from a file of one byte |
| `RomFs.ImageRoundTrip` | tools/mkromfs/mkromfs.c:378-577 | for any sequence of new directory blocks, rewritten directory blocks and files, and any rewriting of directory blocks between the conversions, the image is built if and only if the blocks suffice, and then every file is read back by the kernel exactly as it was |
| `Timers.DownCountTotal` | kernel/time.c:23-34 | the two fields count down as one number that stops at zero |
| `Timers.CeilIsLeast` | kernel/time.c:23-34 | Ceil is the least number of ticks that last at least as long |
| `Timers.LastingIsProduct` | kernel/time.c:13-21 | n ticks last n times the length of a tick |
| `Timers.DividesIsMod` | kernel/kernel.c:2914-2949 | the later expiries are those whose distance is divisible by the period |
| `Timers.DownCountRemaining` | kernel/time.c:23-34 | for any two fields, a tick ends the countdown or leaves exactly one tick less |
| `Timers.ClockExact` | kernel/time.c:13-21 | after n ticks the clock is normalised and has advanced by exactly n ticks |
| `Timers.KtimeRoundsDown` | kernel/time.c:123-126 | the millisecond clock is the clock rounded down |
| `Timers.ExpiryTimes` | kernel/kernel.c:2914-2949 | for any counter and any interval, an enabled timer expires on tick n if and only if n is its first expiry or a multiple of its period later, or exactly once without interval |
| `Timers.ArmedTimer` | kernel/kernel.c:2793-2846 | exactly the normalised values are accepted; a timer set to value v and interval i expires on tick ceil(v/T), then every ceil(i/T) ticks if the fields of i count as its total, exactly once if i is zero; a refused call changes no expiry |
| `Timers.PeriodIff` | kernel/time.c:23-34 | the period of an interval is that of its total if and only if its fields count as the total; for a normalised interval, if and only if it is not negative or has at most one tick of nanoseconds |
| `Timers.SecondExpiryIff` | kernel/kernel.c:2793-2949 | an armed timer expires again when the total of its interval is over if and only if the fields of the interval count as that total; the source checks no interval |
| `Timers.NegativeIntervalCounterexample` | kernel/kernel.c:2793-2846 | an interval of minus one second and two ticks, whose total is negative, does not expire on the next tick |
| `Timers.TimeKeeper.SystemTimerUpdate` | kernel/time.c:13-50 | the in-place update is one tick of the clock |
| `Timers.TimeKeeper.TimerDownCount` | kernel/time.c:23-34 | the in-place update is one tick of the countdown of that timer only |
| `Timers.TimeKeeper.TimersUpdate` | kernel/kernel.c:2914-2949 | every timer takes exactly one tick and those that expire are reported |

## Left out

- User heap (`__malloc`, `__free`): list neighbours are merged as address neighbours, so blocks may overlap in the code as written.
- `kmalloc`/`kfree`: the two choose their size class differently at class boundaries.
- Slab caches with pages larger than 256 bytes, and caches of more than 32 objects per slab: the free path is written for one page and the bitmap is one word.
- The counters `alloc_succeed` and `alloc_fail` of a cache: statistics that nothing reads.
- `kmem_cache_create`: the choice of the page order; a cache is taken as given with its object size.
- `pthread_mutex_trylock`, condition variables, `SIGSTOP`, `SIGKILL`, `exit`, `pthread_cancel`, `pthread_setschedparam`: they step outside the placement invariant.
- KernelCode.Kernel.Schedule: stops where the search finds no ready thread and the source reads before its ready lists; SchedulerPolicy.CanScheduleIff and IdleKeepsScheduling say when that cannot happen.
- KernelCode.Kernel.ThreadJoinHandler: does not model the release of the stack and of the last thread's task.
- KernelCode.Kernel.ThreadCreate: does not model the initialisation of the stack; whether alloc_pages finds one is a parameter.
- SchedulerRuns.NextInv: finish_wait is a step only for a linked thread that is not sleeping for ticks, as its callers use it.
- SchedulerPolicy.IdleKeepsScheduling: applies from the moment the idle thread no longer blocks; during boot it waits for the first thread it creates.
- BlockingRuns.RunSound: one attempt of mutex_lock, with its priority inheritance, is one step; semaphores start at a value from 0 to INT32_MAX-1.
- BlockingRuns.WaitersProgress: says that a woken thread is runnable, not when the scheduler gets to it; SchedulerPolicy.RoundRobin bounds that.
- PageAllocation.PageAllocator.TotalFreeSize: needs the number of top-order pages to be a multiple of 8, as in the source's tables, since whole bytes are counted.
- MessageQueueCode.MQueue.constructor: element storage is taken as disjoint; message sizes that are not multiples of 4 overlap in the source because of its alignment macro.
- PipeCode.FifoWakeUp: no liveness claim for pipes; one fitting thread is woken per operation, so a second one may stay blocked.
- PipeCode.Lossless: calls that restart are separate calls of the sequence.
- RegFile.RootFs.GetBlockAddr: the address check of the root file system is modelled for the block region; no address of the inode table is used.
- RomFs.Builder.ImportFile: once the block array is overrun nothing is claimed.
- RomFs.ImageRoundTrip: directory blocks hold arbitrary bytes; what directory entries mean, and the layout of the super block and the inode table, are not modelled.
- RomFs.RomRead: the exact condition assumes an image of at least 128 bytes, which the super block and the inode table exceed.
- RegFile.RootFs.constructor: does not set up the root directory's inode and the device file.
- FIFO helpers for DMA and the layout of the per-thread signal queue.
- `lseek`, poll timeouts and `time_add` with a second or more of nanoseconds.
- Path resolution, mounting, file creation and the request encoding of the file system daemon.
- Numeric width of counters other than the semaphore count and stored addresses.
- System call entry, context switching, drivers, shell, formatted output and board support.
