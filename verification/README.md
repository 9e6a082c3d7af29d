# Verification model of the RTOS kernel objects and the flash eraser

A Dafny model of six parts of the repository, each as it runs (classes, in-place
updates, loops) and each proved against a specification on values, about which the
properties below are then proved for every input, every run or every reachable state.

| part | source | files |
|---|---|---|
| alignment macros, C bit masks | `rtos/os_men.h` | `CBits.dfy` |
| heap allocator | `rtos/os_men.c` | `HeapLayout.dfy`, `HeapFreeList.dfy`, `HeapSpec.dfy`, `Heap.dfy` |
| flash eraser and writer | `Peripheral/src/ch32v20x_flash.c` | `FlashPlan.dfy`, `FlashCells.dfy`, `Flash.dfy` |
| message queue | `rtos/os_queue.c` | `QueueSpec.dfy`, `QueueLaws.dfy`, `Queue.dfy` |
| event flags | `rtos/os_eflags.c` | `EflagsSpec.dfy`, `Eflags.dfy` |
| semaphore | `rtos/os_sem.c` | `SemSpec.dfy`, `Sem.dfy` |
| lists and wait lists under them | `rtos/os_list.c`, `rtos/os_event.c` | `OsList.dfy`, `OsEvent.dfy` |

How the parts are built:

- **Heap.** The layout of the heap is a sequence of blocks; `Take` and `Release` say what a
  malloc and a free mean by looking at neighbouring blocks only. The class `Heap` works
  as the C code does, on headers at addresses and an address-ordered free list, and is
  proved to compute the same. Alignment, header size and minimum size are parameters.
- **Flash.** The class keeps a log of the erases carried out and the memory words. The log
  is proved to be a plan in closed form, and the plan to be the unique coarsest exact
  cover of the range, stated without reference to how it is computed.
- **Queue, flags, semaphore.** A critical section is one step. Tasks made ready are recorded
  with their result (`wakes`). Time-outs, removal of the object and the inheritance of a
  priority by a waiting task (`rtos/os_mutex.c:136-150`) are steps of their own. Runs are
  arbitrary sequences of steps. Besides what each step computes, the laws of the callers are
  proved on what they are told: which message comes next, that whoever blocks is woken or
  still waits, and when a call succeeds, blocks or is refused. Wait lists are kept by falling priority number, first come
  first served among equals, as `rtos/os_event.c` keeps them.

## What the code does differently from its documentation

- Wait lists are inverted. To the scheduler a smaller number is the more urgent task
  (`rtos/os_sched.c:258-290`), while `rtos/os_event.c:33-37` puts the largest number first
  and calls a smaller one the lower priority. So every hand-off serves the least urgent
  waiter, and the most urgent one exactly when all are equally urgent:
  `ReleaseServesLargestNumber`, `ReleasePassesUrgentTask`, `LargestNumberServed`.
- A CLEAR wait compares the mask with `~(flags & mask)`, which includes the bits outside
  the mask. It has the documented meaning exactly for the full mask: `ClearMeetsIntentIff`,
  `ClearWaitTests`.
- `OS_EFLAGS_CLEAR` is `0x0 << 0` (`rtos/os_eflags.h:10`), so in the compiled program
  `type & OS_EFLAGS_CLEAR` is always zero and no CLEAR branch is taken. The model leaves the
  value open (`State.clear`); `IdleRequestDoesNothing`, `ClearRequestExample`,
  `IdleWaitBlocks` and `IdleWaiterStays` say what callers get with the header's value.
- If the code had a bit, SET and CLEAR waiters could no longer be mixed:
  `NeverLosesWakeupIff`, `MixedExitsDependOnOrder`.
- `os_men_init` sizes the first block from the configured size even when the array is not
  aligned; `InitialBlockFitsIffAligned` gives the exact condition under which it fits.
- A queue write whose option is neither normal nor urgent is told OK, and its message is
  lost unless a reader waits: `UnknownOptionLosesMessage`, `QueueConservation`. Readers and
  writers can then wait for each other: `ReadHandOff`, `UnknownOptionsBothWait`.
- The size of the ring is a `uint16_t` product, and the offsets are `uint16_t` sums. When the
  product wraps, a write told OK while the queue is not full overwrites the first message,
  or all of it but its first bytes: `FirstInFirstOutIff`, `WrappedRingOverwrites`,
  `WrappedSumExample`.
- A malloc of a size just below zero hands out a block that may have no payload. Of any
  other negative size, or one whose aligned value leaves `int`, it splits a block at an
  address outside the rest: `RequestNotNegativeIff`, `LeavesLayoutIff`, `NegativeSizeBreaksHeap`.
- A block below `OS_MEN_MIN_SIZE` can be handed out but not freed: `MallocFreeRoundTrip`,
  `FreeAllInAnyOrder`.
- A queue for zero messages lets readers and writers wait for each other:
  `ZeroCapacityBothWait`.
- A semaphore created with no maximum and a positive count refuses takes by tasks until
  interrupt takes have used the count up: `InitSoundIff`, `TakesRefusedIff`.
- The `uint32_t` sum in the flash range checks can wrap. Exactly the accepted ranges whose
  sum does are erased beyond the valid window: `CheckMeans`, `WrappedRangeAccepted`,
  `StaysInWindowIff`.

## Model

| member | source | states |
|---|---|---|
| CBits.AndBits | rtos/os_men.h:7-8 | the arithmetic `&` used for the macros has exactly the common bits of its operands |
| CBits.Not32Bits | rtos/os_men.h:7-8 | the complement used for the masks flips each of the 32 bits |
| CBits.LowAlignedIsGreatest | rtos/os_men.h:8 | for every power-of-two alignment the macro gives the greatest multiple not above the value |
| CBits.HighAlignedIsLeast | rtos/os_men.h:7 | it gives the least multiple not below the value when the 32-bit sum does not wrap, and falls below the value when it does |
| HeapLayout.EveryByteInOneBlock | rtos/os_men.c:35-103 | in a well-formed heap every byte address lies in exactly one block: no gap, no overlap |
| HeapLayout.TakeKeepsWellFormed | rtos/os_men.c:149-163 | handing out a free block, split or not, keeps the tiling, the alignment of every address and that no two free blocks touch |
| HeapLayout.ReleaseKeepsWellFormed | rtos/os_men.c:35-103 | giving a block back keeps the same invariant, whichever neighbours are free |
| HeapLayout.LiveBlocksDetermineLayout | rtos/os_men.c:35-103 | coalescing is canonical: the live blocks alone determine every free block, its address and size |
| HeapLayout.Accounting | rtos/os_men.c:105-206 | free payload + live payload + one header per block is the heap size |
| HeapLayout.FirstFitIsLowestPlace | rtos/os_men.c:141-147 | first fit fails exactly when the request fits nowhere between live blocks, and otherwise finds the lowest address at which it fits |
| HeapFreeList.FreeListSorted | rtos/os_men.c:43-49 | the free list of a well-formed heap is in strictly increasing address order |
| HeapFreeList.InsertMatchesTake | rtos/os_men.c:155-161 | putting the rest of a split back on the list never merges it and gives the free blocks of the new layout |
| HeapFreeList.InsertMatchesRelease | rtos/os_men.c:35-103 | the four-way merge driven by address comparisons equals fusion with the free neighbours in the layout |
| HeapFreeList.FirstFitMatches | rtos/os_men.c:141-147 | the first block on the list that is large enough is the first one in the heap |
| HeapSpec.RequestNotNegativeIff | rtos/os_men.c:138 | of all `int` sizes, exactly those from one less than the alignment below zero up to 2^31 minus the alignment give a request that is not negative |
| HeapSpec.LeavesLayoutIff | rtos/os_men.c:134-174 | of all `int` sizes, exactly those that do not split a block by a negative request leave headers and a free list that agree with some tiling of the heap |
| HeapSpec.NegativeSizeBreaksHeap | rtos/os_men.c:149-161 | a size and a heap for which no tiling agrees |
| HeapSpec.ReachableHeap | rtos/os_men.c:105-194 | after every run from the initial heap of frees of live pointers and of all mallocs that leave a layout: tiled, coalesced and aligned, `malloc_count` is the number of live blocks, and the bytes add up |
| HeapSpec.EmptiedHeapIsInitial | rtos/os_men.c:134-194 | whatever was allocated and freed, a heap with `malloc_count` zero is the single initial block again |
| HeapSpec.FreeAllInAnyOrder | rtos/os_men.c:176-194 | freeing all live pointers, in any order, restores the initial heap exactly when no live block is below `OS_MEN_MIN_SIZE` |
| HeapSpec.RunKeepsFreeable | rtos/os_men.c:138-187 | no live block is, after every run whose requests are not, such as sizes in range with an alignment of at least `OS_MEN_MIN_SIZE` |
| HeapSpec.MallocFreeRoundTrip | rtos/os_men.c:134-194 | malloc then free of its result restores the identical heap, and is refused exactly when the block is below `OS_MEN_MIN_SIZE` |
| HeapSpec.MallocIsLowestFit | rtos/os_men.c:134-174 | for sizes whose aligned value is an `int`, malloc returns null exactly for size zero or when the request fits nowhere between live blocks, else the lowest fitting address |
| HeapSpec.MallocResultIsFresh | rtos/os_men.c:149-174 | the payload is aligned, large enough, inside the heap, disjoint from all live blocks, and no other block becomes or ceases to be live |
| HeapSpec.MallocSizeIsExact | rtos/os_men.c:153-161 | the payload is exactly the aligned request when behind it there is room for one more header and more than `OS_MEN_MIN_SIZE` bytes; else it is all that fits there, at most that much more than the request |
| HeapSpec.InitialBlockFitsIffAligned | rtos/os_men.c:112-129 | the first block stays inside the array, and matches `heap_size`, exactly when the array (and its size) is aligned |
| HeapSpec.UnalignedHeapOverruns | rtos/os_men.c:112-129 | an unaligned array for which the first block runs past the end |
| Heap.Heap.constructor | rtos/os_men.c:105-132 | the fields represent the initial layout; `heap_size` is its extent iff base and size are aligned |
| Heap.Heap.InsertToMenList | rtos/os_men.c:35-103 | the list and header updates of all branches amount to one sorted insertion with merging; headers off the list are untouched |
| Heap.Heap.Malloc | rtos/os_men.c:134-174 | search, unlink, split and reinsertion on headers in memory give exactly the layout, count and pointer of the specification, for every size that leaves a layout |
| Heap.Heap.Free | rtos/os_men.c:176-194 | likewise for free, including the refused block and the null pointer |
| Heap.Heap.GetFreeSize | rtos/os_men.c:197-205 | the sum over the list is the free payload of the layout |
| FlashPlan.PlanIsCoarsestCover | Peripheral/src/ch32v20x_flash.c:1068-1164 | the plan holds, once each, exactly the aligned erases inside the range that no larger aligned erase inside the range contains |
| FlashPlan.CoverIsExact | Peripheral/src/ch32v20x_flash.c:1039-1170 | such a cover touches every address of the range exactly once and no address outside |
| FlashPlan.PlanCounts | Peripheral/src/ch32v20x_flash.c:1122-1164 | for any length at most 14 sector erases and 30 page erases |
| FlashCells.PlanErasesRange | Peripheral/src/ch32v20x_flash.c:1039-1170 | carrying out the plan erases the words of the range and leaves all others as they were |
| FlashCells.EraseThenWrite | Peripheral/src/ch32v20x_flash.c:1039-1243 | erase then write leaves the data in the range, each word programmed while erased, and the rest unchanged |
| Flash.Controller.RomErase | Peripheral/src/ch32v20x_flash.c:989-1026 | with a count of at least one (met at every call) the do-while carries out exactly that many erases side by side |
| Flash.Controller.EraseFront | Peripheral/src/ch32v20x_flash.c:1088-1101 | the front step erases all whole units up to the aligned end and keeps the unaligned start for the smaller size |
| Flash.Controller.EraseBack | Peripheral/src/ch32v20x_flash.c:1103-1119 | the back step erases all whole units and keeps the remainder for the smaller size |
| Flash.Controller.CheckMeans | Peripheral/src/ch32v20x_flash.c:1045-1058 | an accepted range is page-aligned and lies in the window exactly when its sum does not wrap; every such range is accepted |
| Flash.Controller.CheckStatus | Peripheral/src/ch32v20x_flash.c:1045-1058 | which of the three errors a refused range gets: its start, else its 32-bit end, else its alignment or emptiness |
| Flash.Controller.WrappedRangeAccepted | Peripheral/src/ch32v20x_flash.c:1050-1053 | a concrete wrapping range that the checks accept |
| Flash.Controller.FlashRomErase | Peripheral/src/ch32v20x_flash.c:1039-1170 | for every start and length: the erases carried out are those of the plan of the range at their 32-bit addresses, the plan itself when the sum does not wrap, and none on any error status |
| Flash.Controller.StaysInWindowIff | Peripheral/src/ch32v20x_flash.c:1045-1164 | an accepted range touches only the valid window exactly when its sum does not wrap; otherwise the address behind the window is erased |
| FlashPlan.WrappedTouches | Peripheral/src/ch32v20x_flash.c:989-1170 | at 32-bit addresses the plan touches the addresses of the range modulo 2^32, each in one erase, and no others |
| Flash.Controller.FlashRomWrite | Peripheral/src/ch32v20x_flash.c:1184-1243 | the nested loops program every word of the range once with its data, and nothing on any error status, which includes every wrapping range the checks refuse |
| QueueSpec.ReadHandOff | rtos/os_queue.c:230-283 | a read keeps "waiting reader means empty, waiting writer means full" except exactly when it admits a writer of unknown option before others |
| QueueSpec.WriteHandOff | rtos/os_queue.c:286-336 | a write keeps it always |
| QueueSpec.ZeroCapacityBothWait | rtos/os_queue.c:230-336 | a queue for zero messages reaches a state where a reader and a writer both wait |
| QueueSpec.QueueConservation | rtos/os_queue.c:178-336 | over every run, whatever the options, each message whose writer was told OK, by the call or on waking, is exactly once delivered, discarded, lost for its option or buffered; with known options none is lost and readers and writers never both wait |
| QueueSpec.QueueOrder | rtos/os_queue.c:230-336 | over every run of normal writes messages leave in acceptance order, through blocked writers, hand-offs and clears |
| QueueLaws.DeliveryOrder | rtos/os_queue.c:205-306 | over every run of normal and urgent writes each message delivered, to a caller or a woken reader, is the latest accepted urgent one still inside, else the oldest normal one, and so is the next to be read |
| QueueLaws.UrgentIsNext | rtos/os_queue.c:207-217 | an urgent message accepted into the buffer is the next one read, and that read restores the queue |
| QueueLaws.UrgentWriterIsNext | rtos/os_queue.c:241-253 | so is that of an urgent writer whom a read admits |
| QueueLaws.WaitersBalance | rtos/os_queue.c:178-336 | in every step, who waited before or blocks now still waits afterwards or is woken |
| QueueLaws.ReadBalance | rtos/os_queue.c:230-283 | a read wakes only writers, with OK and no message; readers only join their list |
| QueueLaws.WriteBalance | rtos/os_queue.c:286-336 | a write wakes only readers, with OK and its message; writers only join their list |
| QueueLaws.ClearBalance | rtos/os_queue.c:178-192 | a clear empties the queue and wakes everybody with its own error; the removal keeps the messages and has another |
| QueueLaws.ClearOrder | rtos/os_queue.c:184-185 | a clear wakes the writers, in list order, before the readers |
| QueueLaws.WriterToldOkIff | rtos/os_queue.c:241-253 | a read wakes a writer with OK exactly when it accepts its message |
| QueueLaws.ReadAnswers | rtos/os_queue.c:230-283 | a read returns a message exactly when there is one, else blocks exactly when the caller may, on the list, and is refused without effect otherwise |
| QueueLaws.WriteAnswers | rtos/os_queue.c:286-336 | a write is refused for a negative option, accepted exactly when a reader waits or there is room, else blocks exactly when the caller may, with its message and option on the list, and is refused without effect otherwise |
| QueueSpec.LargestNumberServed | rtos/os_queue.c:230-336 | in every reachable state a write hands over to, and a read admits, a waiter with the largest priority number of its list, the most urgent one exactly when all are equally urgent |
| QueueSpec.RunKeepsFalling | rtos/os_queue.c:178-336 | the priority numbers fall along both wait lists over every run, inherited priorities included |
| QueueSpec.UnknownOptionLosesMessage | rtos/os_queue.c:205-228 | a write told OK loses its message exactly when the option is unknown and no reader waits |
| QueueSpec.UnknownOptionsBothWait | rtos/os_queue.c:205-228 | two writers of unknown option after which a reader and a writer wait for each other |
| Queue.AppendContents | rtos/os_queue.c:218-227 | writing the slot behind the last message, wrapped or not, appends to the messages byte for byte |
| Queue.PrependContents | rtos/os_queue.c:207-217 | writing the slot before the first message, wrapped or not, prepends |
| Queue.FirstInFirstOutIff | rtos/os_queue.c:21-49 | of up to `msg_cnt` normal writes into a new queue, the first is always the first message read exactly when the 16-bit ring size does not wrap |
| Queue.WrappedRingOverwrites | rtos/os_queue.c:218-227 | otherwise there are a number of writes below `msg_cnt` and an offset below the message size such that one write more makes the first message read the first bytes of the first message, up to that offset, followed by the start of the last one |
| Queue.WrappedSumExample | rtos/os_queue.c:221-225 | a ring in which the 16-bit sum of the offset wraps before it is compared |
| Queue.OsQueue.constructor | rtos/os_queue.c:21-49 | the 16-bit ring size gives a valid empty ring exactly when the product does not wrap |
| Queue.OsQueue.WriteNormal | rtos/os_queue.c:218-227 | on the bytes as `StoreBack` for every ring size, the offset stored in 16 bits before it is compared, and at the back of the deque for a valid ring |
| Queue.OsQueue.QueueReadMsg | rtos/os_queue.c:194-203 | copies out the bytes at the read offset and moves it on, in 16 bits, for every ring size; on a valid ring that pops the front message of the deque |
| Queue.OsQueue.QueueWriteIn | rtos/os_queue.c:205-228 | urgent pushes at the front, normal at the back, anything else leaves the ring alone |
| Queue.OsQueue.Read | rtos/os_queue.c:230-283 | the byte ring, the wait lists and the tasks woken change as the deque's read |
| Queue.OsQueue.Write | rtos/os_queue.c:286-336 | likewise for write, with hand-off to the first waiting reader |
| Queue.OsQueue.Clear | rtos/os_queue.c:178-192 | empties the deque and wakes writers, then readers, in list order |
| Queue.OsQueue.Uninit | rtos/os_queue.c:61-79 | wakes everybody with the removal error |
| EflagsSpec.OnlySetIsSatisfied | rtos/os_eflags.c:101-137 | when the CLEAR branch is not taken, a wait is satisfied exactly when it is a SET wait and all (or any) of its bits are set |
| EflagsSpec.NoLostWakeup | rtos/os_eflags.c:93-245 | over every run of waits that do not take the CLEAR branch, and of any sets, time-outs and removal, nobody waits for a condition that holds |
| EflagsSpec.NeverLosesWakeupIff | rtos/os_eflags.c:203-220 | over runs of waits of every type, the same holds exactly when `OS_EFLAGS_CLEAR` has no bit, as in its header |
| EflagsSpec.WokenHadCause | rtos/os_eflags.c:172-231 | whoever is woken had a condition that holds on the updated flags, and gets its mask applied to them |
| EflagsSpec.SatisfiedAreWoken | rtos/os_eflags.c:172-231 | everybody whose condition holds on the updated flags is woken and leaves the list, whoever else waits |
| EflagsSpec.SetRequestSets | rtos/os_eflags.c:164-232 | a SET call adds no bits but those of its mask, and when nobody it wakes clears on exit the flags are exactly the old ones with the mask |
| EflagsSpec.SetRequestWakes | rtos/os_eflags.c:172-231 | a SET waiter with a bit in the old flags or the mask (any), or all bits in both together (all), is woken with those bits; another stays |
| EflagsSpec.SetAnswers | rtos/os_eflags.c:157-160 | a set call is refused, without effect, exactly for an empty mask |
| EflagsSpec.WaitAnswers | rtos/os_eflags.c:93-155 | a wait is refused without a mask, answered at once with the matching bits exactly when its condition holds, taking them off the flags when it clears on exit, and else put on the list |
| EflagsSpec.WaitersBalance | rtos/os_eflags.c:93-245 | in every step, who waited before or blocks now still waits afterwards or is woken, and is told why |
| EflagsSpec.OrderKept | rtos/os_eflags.c:222-230 | those who stay keep their order and those who are woken are woken in theirs |
| EflagsSpec.TimesOutIff | rtos/os_eflags.c:141-154 | a time-out wakes exactly a task that waits with a positive delay |
| EflagsSpec.ResidueIsMask | rtos/os_eflags.c:172-232 | updating the temporary flags waiter by waiter leaves the snapshot without the union of the exit bits |
| EflagsSpec.SetBitsLeaves | rtos/os_eflags.c:164-232 | so that is what a set call leaves of the flags |
| EflagsSpec.ExitBitsHave | rtos/os_eflags.c:191-194 | each woken waiter that clears on exit takes off all bits that woke it |
| EflagsSpec.ExitBitsLeast | rtos/os_eflags.c:191-194 | and no other bits are taken off |
| EflagsSpec.SetBitsOrderIrrelevant | rtos/os_eflags.c:172-232 | the final flags and the set of woken tasks with their results do not depend on the order of the wait list |
| EflagsSpec.MixedExitsDependOnOrder | rtos/os_eflags.c:191-212 | a SET and a CLEAR waiter for which the final flags would depend on it |
| EflagsSpec.RunKeepsFalling | rtos/os_eflags.c:222-230 | the priority numbers fall along the wait list over every run, rotations and inherited priorities included |
| EflagsSpec.ClearWaitTests | rtos/os_eflags.c:119-122 | what a taken CLEAR branch tests, for every mask: all means full mask and no flag set, any means not all of both set |
| EflagsSpec.ClearMeetsIntentIff | rtos/os_eflags.c:119-122 | it is the documented condition (all, or any, bits of the mask clear) on all flags exactly when the mask is full |
| EflagsSpec.ClearRequestClearsIff | rtos/os_eflags.c:164-170 | a set call without the SET bit leaves its mask clear exactly when its type has the CLEAR bit or the mask was clear |
| EflagsSpec.ClearRequestTakesMask | rtos/os_eflags.c:167-170 | with the CLEAR bit it takes exactly the mask off the flags and wakes nobody |
| EflagsSpec.IdleRequestDoesNothing | rtos/os_eflags.c:164-170 | a call with neither bit changes no flag and wakes nobody |
| EflagsSpec.ClearRequestExample | rtos/os_eflags.c:167-170 | with the header's value the documented clearing call on a set bit leaves it set |
| EflagsSpec.IdleWaitBlocks | rtos/os_eflags.c:119-142 | a wait with neither bit always blocks |
| EflagsSpec.IdleWaiterStays | rtos/os_eflags.c:203-220 | and stays blocked over every run until its own time-out or the removal |
| Eflags.EventFlags.TestWait | rtos/os_eflags.c:101-137 | the written-out SET and CLEAR tests, with what the exit leaves of the flags, are the specified test |
| Eflags.EventFlags.WaitBits | rtos/os_eflags.c:93-155 | returns at once with the matching bits, or queues the caller by its priority number |
| Eflags.EventFlags.WakeSatisfied | rtos/os_eflags.c:172-232 | the rotating loop examines each waiter once: the rest stay in their order, the satisfied are woken in theirs, for every list length |
| Eflags.EventFlags.SetBits | rtos/os_eflags.c:157-245 | the whole call on the fields is the specified one |
| SemSpec.InitSoundIff | rtos/os_sem.c:15-33 | a created semaphore is within bounds exactly when it has a maximum or starts at zero; the count is clamped |
| SemSpec.TakesRefusedIff | rtos/os_sem.c:101-205 | after every run a take by a task gets the parameter error exactly when there is no maximum and fewer interrupt takes than the initial count have succeeded |
| SemSpec.SemConservation | rtos/os_sem.c:101-246 | over every run of task and interrupt calls, time-outs and inherited priorities: count within bounds, positive only with nobody waiting, and initial + releases - takes = count |
| SemSpec.RunAnswers | rtos/os_sem.c:101-246 | after every run a take is told OK exactly when the balance leaves a count, and a release is refused exactly when it leaves the maximum and nobody waits |
| SemSpec.ReleaseAnswers | rtos/os_sem.c:137-246 | a release is told OK exactly when somebody waits or the count is below the maximum, and else has no effect |
| SemSpec.ReleaseTakeRoundTrip | rtos/os_sem.c:101-246 | with nobody waiting an accepted release and a take undo each other, in either order |
| SemSpec.TakeAnswers | rtos/os_sem.c:101-135 | a take succeeds exactly on a count, blocks exactly when the caller may, on the list, and is refused without effect otherwise |
| SemSpec.WaitersBalance | rtos/os_sem.c:101-246 | in every step, who waited before or blocks now still waits afterwards or is woken, and is told why |
| SemSpec.TimesOutIff | rtos/os_sem.c:130-134 | a time-out wakes exactly a task that waits with a positive delay |
| SemSpec.ReleaseServesLargestNumber | rtos/os_sem.c:217-234 | in every reachable state a release hands over to a waiter of the largest priority number, the most urgent one exactly when all are equally urgent |
| SemSpec.ReleasePassesUrgentTask | rtos/os_sem.c:137-163 | a release that wakes the less urgent of two waiters |
| Sem.Semaphore.constructor | rtos/os_sem.c:15-33 | clamping and the 8-bit store as specified |
| Sem.Semaphore.Take | rtos/os_sem.c:101-135 | every branch of take on the fields, blocking by priority number |
| Sem.Semaphore.Release | rtos/os_sem.c:137-178 | every branch of release, with hand-off before counting |
| Sem.Semaphore.TakeFromIsr | rtos/os_sem.c:191-205 | never blocks |
| Sem.Semaphore.ReleaseFromIsr | rtos/os_sem.c:217-246 | hand-off before counting, bounded by the maximum |
| OsEvent.InsertPlace | rtos/os_event.h:28-36 | a new waiter goes behind all of its priority number or a larger one and before all of a smaller one; nobody else moves |
| OsEvent.HeadMostUrgentIff | rtos/os_event.h:28-36 | on such a list the head is the most urgent waiter exactly when all are equally urgent |
| OsEvent.InheritExact | rtos/os_event.h:32-34 | inheriting gives one waiter the smaller of the two numbers and changes no other |

## Left out

- Heap.Heap.Malloc: sizes that leave no layout, as `LeavesLayoutIff` has it, are excluded; what the overlapping headers then do is not modelled.
- Heap.Heap.Free: the pointer is null or that of a live block, as the code asserts; the assertion on the minimum size is taken as compiled out, so a smaller block is refused with the parameter error.
- Flash.Controller.FlashRomErase: an erase at an address behind the modelled words is recorded and changes none of them; what the hardware does with it is not modelled.
- Flash.Controller.FlashRomWrite: ranges that the checks accept although start plus length wraps 32 bits are excluded; `CheckMeans` says which these are. The stores leave the flash and can hit the buffer they are copied from.
- Heap.Heap.InsertToMenList: the free list is the sequence of its addresses, on which `os_list_insert_after` with a null predecessor inserts at the head; the pointers of `rtos/os_list.c` are not part of this model.
- The bytes of a message are read when a blocked writer is admitted or a blocked reader is served; the model takes them at the call, so a caller that changes its buffer while blocked is not covered. Null arguments of queue, flags and semaphore calls are left out.
- The scheduler: ready and delay lists, context switches, interrupt masking. A time-out is a step that may happen to any waiter with a positive delay. Suspending or deleting a waiting task is not a step. Of the mutex only the re-insertion of a waiting owner is.
- EflagsSpec.SetBitsLeaves: like `NoLostWakeup` and `SetBitsOrderIrrelevant` it is about waiters that do not take the CLEAR branch; with others these results fail (`NeverLosesWakeupIff`, `MixedExitsDependOnOrder`).
- Concurrency on the heap: the allocator takes no lock and is modelled sequentially.
- Flash keys, busy polling and locking: an erase or a programmed word is one completed step.
- Create and free wrappers and the information getters of queue, flags and semaphore, memory blocks, mutexes, timers, peripheral drivers and board support: they would add only easy members or are not part of this model.
