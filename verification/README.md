# Verification of the OS2023 course repository

This project models, in Dafny 4.11, the three most intricate parts of the
repository and proves what they are meant to guarantee, for every input and over
every run.

1. **The page-replacement simulator** (`4/as4.c`). The circular queue, the page
   table and the frame table are arrays updated in place, as in the C code.
   `Simulator.Simulation.Simulate` runs a whole trace under Optimal, FIFO, LRU or
   Second-Chance and is proved to follow the value-level machine of
   `Replacement`. About that machine the classical theorems are proved: Belady
   optimality against every demand-paging schedule, the LRU stack property,
   k-competitiveness of LRU and FIFO, FIFO's closed form, and Second-Chance as a
   one-handed clock, whose exact competitive factor is 2k - 1.
2. **Scheduler protocols** (`3/20193018_PLUS-1/core.c`). The affinity-change
   protocol and sleep/wake-up are state machines in which every section held
   under a lock is one action; safety is proved over all interleavings. The
   core-wide task pick, the utilization-clamp buckets and the task-group walk are
   imperative Dafny with loops.
3. **Exit and reaping** (`3/20193018_PLUS-1/exit.c`). A state machine over
   creation, exit, reparenting, waiting and releasing, with the context-switch
   counters beside it.

| file | content |
|---|---|
| `Options.dfy`, `Collections.dfy`, `Paging.dfy` | optional values, sets and sequences; traces, schedules and faults in the abstract |
| `Belady.dfy`, `Replacement.dfy`, `LruStack.dfy`, `Competitive.dfy`, `FifoOrder.dfy`, `Clock.dfy`, `ClockBounds.dfy`, `ClockLowerBound.dfy` | the four algorithms on values, and their theory |
| `PageQueue.dfy`, `Tables.dfy`, `Simulator.dfy` | the simulator in place |
| `Affinity.dfy`, `Wakeup.dfy`, `CorePick.dfy`, `Uclamp.dfy`, `GroupTree.dfy` | the scheduler |
| `Reaping.dfy` | exit and reaping |

## Findings

Six things that the code, its comments or the textbook algorithm promise do not
hold of the code in all cases. The code is modelled as it is. For each there is a
concrete input or run on which it fails, and a lemma that says exactly when it
holds.

- `removeFrameFromQueue` takes "front meets rear" to mean that the queue is
  empty. It therefore empties a queue of two, and leaves a ring of one element
  looking full. Removal is exact if and only if the value is absent, three or
  more are queued, or the ring has one place (`PageQueue.RemovalExactIff`). The
  simulator runs with 8 to 64 frames, and Optimal only removes from a full queue.
- `replacePageSC` loads a page with its reference bit clear (4/as4.c:384 and 423),
  so a page just loaded can go before older ones that were hit. The textbook clock
  never takes more than k times the faults of Optimal; this one does. A factor
  bounds it on all traces, with any constant to spare, if and only if it is at
  least 2k - 1 (`ClockLowerBound.FactorIff`): k will do only for a single frame.
  `ClockLowerBound.Trace` is the family of traces.
- A stopper that finds the task on another CPU tests `*cpus_ptr`, not
  `cpus_mask` (core.c:2368). A task pinned by `migrate_disable` outside the
  requested mask is then reported as moved, and the later `migrate_enable`
  reaches the warning at core.c:2716 (`Affinity.WarningReachable` gives a run).
  A local stopper likewise completes while the task is still waking towards a CPU
  that has been disallowed meanwhile, and leaves it queued there
  (`Affinity.LeftOnForbiddenCpu` gives a run; the flush before the stopper takes
  the locks leaves a window for such a wake-up). Every action keeps the promise
  except exactly these two (`Affinity.PromiseKeptIff`).
- `prio_less` calls two deadline tasks with equal deadlines each lower than the
  other. The wipe-and-restart loop over two siblings with one deadline task each
  goes round for ever if and only if the two have the same deadline and different
  cookies, neither of them zero (`CorePick.DuelEndsIff`). Without such a tie among
  the candidates the pick terminates, on any number of siblings.
- The comment in `uclamp_rq_dec_id` says a bucket's value is reset to its base
  when its last task leaves. Nothing writes it: the bucket is at its base
  afterwards if and only if it was before
  (`Uclamp.EmptiedBucketKeepsValue`; `Uclamp.ResetDoesNotHappen` is an index where
  it was not). The cache stays right nevertheless.
- The context switches a task makes after its count has been read (by the waiter
  for a group leader, by `__exit_signal` for another thread) are never counted.
  The child totals account for all switches of the processes reaped if and only if
  none of their tasks switched after it was read (`Reaping.NothingLostIff`;
  `Reaping.SwitchCanBeLost` is a run that loses one).

## Model

| member | source | states |
|---|---|---|
| `Replacement.OptimalIsOptimal` | 4/as4.c:202-341 | after every prefix of every trace, replacePageOptimal has faulted no more often than any demand-paging schedule from empty memory with the same number of frames |
| `Replacement.OptimalBeatsEveryAlgorithm` | 4/as4.c:202-624 | in particular no more often than FIFO, LRU or Second-Chance |
| `Belady.FurthestIsOptimal` | 4/as4.c:245-282 | evicting a page whose next use is furthest is optimal at every prefix, whatever the tie-breaking |
| `Belady.TrailsAdvances` | 4/as4.c:245-282 | the exchange step: what the furthest-use memory lacks of another schedule's soon-needed pages never exceeds its lead in faults |
| `Replacement.OptimalStepIsFurthest` | 4/as4.c:202-341 | every step of the simulator's Optimal evicts a page of furthest next use |
| `Replacement.OptimalVictimIsUnique` | 4/as4.c:276-317 | the victim is determined: furthest next use, and oldest loaded among pages never used again |
| `Replacement.RunIsSchedule` | 4/as4.c:202-624 | every run of each of the four algorithms is a demand-paging schedule |
| `Replacement.RunExists` | 4/as4.c:202-624 | every trace has a run under each algorithm with any positive number of frames, so no statement about runs is empty |
| `Replacement.StepKeeps` | 4/as4.c:202-624 | every step keeps frames distinct and the queue a permutation of the loaded frames, and exchanges at most one page |
| `Replacement.EvictExchanges` | 4/as4.c:320-338 | an eviction replaces exactly one resident page by the referenced one, in the frame each of the four algorithms prescribes |
| `LruStack.LruHoldsMostRecent` | 4/as4.c:446-543 | after every prefix LRU holds exactly the k most recently used pages |
| `LruStack.LruResidentIff` | 4/as4.c:446-543 | a page is resident if and only if it has been used and fewer than k other pages have been used since |
| `LruStack.LruInclusion` | 4/as4.c:446-543 | what k frames hold, any larger number of frames holds |
| `LruStack.LruFaultsNeverRise` | 4/as4.c:446-543 | adding frames never adds faults |
| `LruStack.StackByRecency` | 4/as4.c:506-526 | the stack lists the pages used so far, without repetition, strictly by last use |
| `LruStack.DepthCountsSince` | 4/as4.c:506-526 | a page's depth in the stack is the number of distinct pages used since |
| `Competitive.LruCompetitive` | 4/as4.c:446-543 | after every prefix LRU's faults are at most totalFrame times Optimal's |
| `Competitive.PotentialInvariant` | 4/as4.c:446-624 | the amortized form: faults plus potential never exceed totalFrame times Optimal's faults, for every list-like policy |
| `FifoOrder.FifoCompetitive` | 4/as4.c:545-624 | after every prefix FIFO's faults are at most totalFrame times Optimal's |
| `FifoOrder.FifoClosedForm` | 4/as4.c:545-624 | the queue and the frames as a function of the sequence of faults alone |
| `FifoOrder.FifoFaultLoadsFrame` | 4/as4.c:572-607 | the m-th fault, from 0, loads frame m mod totalFrame |
| `FifoOrder.FifoHoldsLastFaults` | 4/as4.c:545-624 | memory holds exactly the pages of the last totalFrame faults |
| `Clock.SecondChanceIsClock` | 4/as4.c:343-444 | every Second-Chance run is, step by step, a one-handed clock whose hand is the front of the queue |
| `Clock.ScanPicksFirstUnmarked` | 4/as4.c:392-411 | the restarting victim scan picks the first frame in queue order with reference bit 0, or the front when all are set, and clears exactly the bits it passed |
| `Clock.FifoIff` | 4/as4.c:343-444 | Second-Chance and FIFO hold the same pages in the same frames and queue order throughout a prefix if and only if no victim scan in it passes the front of the queue for another frame |
| `ClockBounds.StepServesLine` | 4/as4.c:343-444 | a Second-Chance step depends only on the pages in queue order and their bits |
| `ClockBounds.SecondChanceCompetitive` | 4/as4.c:343-444 | after every prefix Second-Chance's faults are at most 2 * totalFrame - 1 times Optimal's |
| `ClockLowerBound.SecondChanceLowerBound` | 4/as4.c:343-444 | for every number of frames from two on, and every m, a trace on which Second-Chance takes k + (2k - 1) * m faults and Optimal between m and k + m |
| `ClockLowerBound.PhaseFaults` | 4/as4.c:392-429 | one phase of it: the hit page is spared by the scan, and 2k - 1 of the next references fault |
| `ClockLowerBound.FactorIff` | 4/as4.c:343-444 | a factor bounds Second-Chance by Optimal on all traces, with some constant, if and only if it is at least 2k - 1 |
| `Replacement.ScanKeeps` | 4/as4.c:392-411 | the scan ends at an unmarked frame and keeps the frames and the permutation |
| `PageQueue.Queue.constructor` | 4/as4.c:35-44 | a new queue is empty |
| `PageQueue.Queue.IsFull` | 4/as4.c:46-52 | full exactly when it holds maxSize values |
| `PageQueue.Queue.IsEmpty` | 4/as4.c:54-60 | empty exactly when it holds nothing |
| `PageQueue.Queue.Enqueue` | 4/as4.c:62-74 | appends to the abstract sequence at every wrap-around position; refuses, unchanged, when full |
| `PageQueue.Queue.Dequeue` | 4/as4.c:76-90 | removes and returns the first element; -1 when empty |
| `PageQueue.Queue.FindPosition` | 4/as4.c:92-107 | the ring position of the first occurrence, or -1 exactly when absent |
| `PageQueue.Queue.RemoveFrame` | 4/as4.c:109-129 | deletes the first occurrence and keeps the order of the rest when three or more are queued; what it does to shorter queues |
| `PageQueue.RemovalExactIff` | 4/as4.c:109-129 | removal deletes exactly the first occurrence if and only if the value is absent, three or more are queued, or the ring has one place |
| `PageQueue.ShiftedRemoves` | 4/as4.c:116-121 | moving the tail down over the first occurrence and dropping the last place removes exactly that occurrence |
| `Tables.EvictLinks` | 4/as4.c:320-338 | clearing the old entry and installing the new one, in either order, keeps the page table and the frames inverse to each other |
| `Tables.LoadLinks` | 4/as4.c:229-242 | so does loading a free frame |
| `Simulator.Simulation.constructor` | 4/as4.c:150-175 | the initial tables and queue represent empty memory, and every page number is its address divided by the page size |
| `Simulator.Simulation.FindHit` | 4/as4.c:208-224 | finds the frame holding the referenced page, or none exactly on a fault |
| `Simulator.Simulation.HitOrLoad` | 4/as4.c:208-243 | the part shared by the four functions: 1 on a hit, 0 after loading a free frame, each a step of the algorithm |
| `Simulator.Simulation.ChooseOptimal` | 4/as4.c:254-317 | the distance scan and the comparison of raw ring positions end at the optimal victim, because front is 0 |
| `Simulator.ChosenVictim` | 4/as4.c:264-317 | the branch on the number of pages that never appear again always ends at the optimal victim |
| `Simulator.Simulation.FirstOut` | 4/as4.c:284-316 | of the frames whose pages never appear again, the one queued first |
| `Simulator.Simulation.Requeue` | 4/as4.c:326-331 | moves the victim from its place in the queue to the rear; front stays 0 |
| `Simulator.Simulation.ReplaceOptimal` | 4/as4.c:202-341 | one reference under Optimal keeps every table and queue invariant and is a step of the algorithm |
| `Simulator.Simulation.LeastRecentlyUsed` | 4/as4.c:489-526 | the backward scan ends at the page with the oldest last use |
| `Simulator.Simulation.ReplaceLru` | 4/as4.c:446-543 | the same for LRU |
| `Simulator.Simulation.ReplaceFifo` | 4/as4.c:545-624 | the same for FIFO |
| `Simulator.Simulation.FindVictim` | 4/as4.c:392-411 | the loop that restarts with j = -1 terminates with the abstract scan's victim |
| `Simulator.Simulation.ReplaceSecondChance` | 4/as4.c:343-444 | the same for Second-Chance |
| `Simulator.Simulation.FrameNumber` | 4/as4.c:193-200 | succeeds after every reference, with the frame that holds the page |
| `Simulator.Simulation.PhysicalAddress` | 4/as4.c:177-191 | succeeds after every reference, with frame * pageSize + va mod pageSize of that frame |
| `Simulator.Simulation.Simulate` | 4/as4.c:806-866 | the memories passed through are a run of the chosen algorithm, every printed line is right and its address inside physical memory, and the fault and hit counts are the run's |
| `Simulator.FaultRowsCount` | 4/as4.c:815-857 | the lines marked as faults are as many as the run's faults |
| `Affinity.RunInv` | 3/20193018_PLUS-1/core.c:2118-2173 | the protocol's invariant holds in every reachable state of every interleaving |
| `Affinity.DisabledCountsSections` | 3/20193018_PLUS-1/core.c:2132-2173 | migration_disabled is the number of migrate_disable calls minus that of migrate_enable calls run to their end |
| `Affinity.SectionHolds` | 3/20193018_PLUS-1/core.c:2118-2173 | from a migrate_disable to its matching migrate_enable the task stays on its CPU and, once pinned, pinned, however sections nest |
| `Affinity.MaskAfter` | 3/20193018_PLUS-1/core.c:2826-2848 | cpus_mask is what the last request that was not refused asked for |
| `Affinity.MovesOnlyIf` | 3/20193018_PLUS-1/core.c:2329-2345 | a request or stopper moves the task only off a CPU it may not use, only while queued and not migration-disabled, and to the destination asked for; nothing moves it outside the mask in force |
| `Affinity.StopWorkCycle` | 3/20193018_PLUS-1/core.c:2352-2388 | the life of stop work: promised for and queued on the task's CPU, finished when it runs, or sent after a task that is elsewhere on a CPU not allowed |
| `Affinity.AllowedRequestSettles` | 3/20193018_PLUS-1/core.c:2645-2676 | a request that allows the task's CPU completes any waiter without stop work, and does not wait itself |
| `Affinity.StopperFindsItsRecord` | 3/20193018_PLUS-1/core.c:2294-2394 | a record with stop work in flight is installed and marked: the warnings at 2322 and 2379 never fire |
| `Affinity.OwnerReturnsLast` | 3/20193018_PLUS-1/core.c:2759-2775 | when the owner returns, refs is 0, the record is uninstalled, nobody waits on it and no stop work or completion is outstanding: the warning at 2772 never fires |
| `Affinity.ReturnedRecordIsLeftAlone` | 3/20193018_PLUS-1/core.c:2759-2775 | after that no action touches the record |
| `Affinity.WaiterNeverStranded` | 3/20193018_PLUS-1/core.c:2637-2758 | an installed record without stop work belongs to a migration-disabled task whose cpus_ptr is pinned |
| `Affinity.EnableServesWaiters` | 3/20193018_PLUS-1/core.c:2148-2173 | the outermost migrate_enable completes such a record or launches the stopper |
| `Affinity.CompletionRespectsMaskInForce` | 3/20193018_PLUS-1/core.c:2329-2391 | completion is never decided while the task is queued on a CPU outside *cpus_ptr |
| `Affinity.PromiseKeptIff` | 3/20193018_PLUS-1/core.c:2352-2388 | an action leaves the task outside cpus_mask without an installed record if and only if it is one of two early completions |
| `Affinity.NoPrematureNoWarning` | 3/20193018_PLUS-1/core.c:2702-2719 | without those the warning at 2716 never fires |
| `Affinity.WarningReachable` | 3/20193018_PLUS-1/core.c:2702-2719 | a run with one of them that reaches it |
| `Affinity.LeftOnForbiddenCpu` | 3/20193018_PLUS-1/core.c:2329-2350 | a run through the other early completion, which leaves the task queued on a forbidden CPU with no record installed |
| `Wakeup.RunInv` | 3/20193018_PLUS-1/core.c:3992-4151 | the wake-up protocol's invariant holds in every reachable state |
| `Wakeup.OneQueueOneCpu` | 3/20193018_PLUS-1/core.c:6255-6392 | a task is on at most one runqueue and one wakelist and runs on at most one CPU |
| `Wakeup.DrainFindsTaskOff` | 3/20193018_PLUS-1/core.c:3658-3689 | draining a wakelist finds on_cpu clear and the task accounted there: neither warning fires |
| `Wakeup.ActivatedOnlyOffCpu` | 3/20193018_PLUS-1/core.c:3589-3612 | no action puts a task on a runqueue while on_cpu is set |
| `Wakeup.WakeNeverLost` | 3/20193018_PLUS-1/core.c:4056-4142 | a task in TASK_WAKING is in its waker's hands or on its own CPU's wakelist |
| `Wakeup.WakeCompletes` | 3/20193018_PLUS-1/core.c:3554-3689 | every way a wake-up can end leaves the task running, on its own CPU's queue, off every wakelist and with no waker |
| `Wakeup.NoWakeupUndone` | 3/20193018_PLUS-1/core.c:6307-6330 | when __schedule puts a task to sleep, no wake-up of it has completed since it last declared that it would sleep |
| `Wakeup.SleepsIff` | 3/20193018_PLUS-1/core.c:6307-6345 | __schedule takes the current task off its queue if and only if it is not preempted, not runnable and has no signal pending |
| `Wakeup.StateAfter` | 3/20193018_PLUS-1/core.c:3992-4151 | the state is the last word of the task, a signal or its waker; nothing else changes it |
| `Wakeup.OnRqAfter` | 3/20193018_PLUS-1/core.c:6307-6345 | a task joins a queue exactly when woken or migrated there, and leaves it exactly to sleep or to migrate |
| `Wakeup.CpuAfter` | 3/20193018_PLUS-1/core.c:4120-4142 | only its waker's placement or a migration changes a task's CPU |
| `Wakeup.WakerAfter` | 3/20193018_PLUS-1/core.c:4028-4142 | the steps of a waker, in order and for its own task only |
| `Wakeup.PickRuns` | 3/20193018_PLUS-1/core.c:6347-6381 | __schedule ends with the task it chose current, on the CPU and on its queue |
| `Wakeup.FinishFrees` | 3/20193018_PLUS-1/core.c:4641-4657 | finish_task clears on_cpu of prev and of nobody else, and then no CPU runs it |
| `CorePick.PickFitsOrBeats` | 3/20193018_PLUS-1/core.c:5704-5744 | pick_task returns a task that matches max's cookie or beats max, as its comment demands |
| `CorePick.PickIsFair` | 3/20193018_PLUS-1/core.c:5704-5744 | and passes over the sibling's own offer only for a pick or a max at least as high |
| `CorePick.PrioIsRank` | 3/20193018_PLUS-1/core.c:93-133 | prio_less is the order by kernel priority, then earlier deadline, or smaller vruntime in the fair class, except that equal deadlines rank below each other |
| `CorePick.PickTaskMeans` | 3/20193018_PLUS-1/core.c:5704-5744 | which of the class's offer, the best task with the core's cookie and the idle task is returned, in terms of that order |
| `CorePick.RestartRises` | 3/20193018_PLUS-1/core.c:5886-5914 | each restart moves max strictly up in (priority, tagged), so there are finitely many |
| `CorePick.EqualDeadlinesAreNotOrdered` | 3/20193018_PLUS-1/core.c:115-133 | prio_less orders two deadline tasks both ways exactly when their deadlines are equal |
| `CorePick.DuelEndsIff` | 3/20193018_PLUS-1/core.c:5859-5917 | with one deadline task on each of two siblings, the loop ends if and only if they are not tied: equal deadlines and different nonzero cookies |
| `CorePick.TiedNeverEnds` | 3/20193018_PLUS-1/core.c:5859-5917 | tied tasks displace each other for ever: after any number of turns the loop is in one of three states, none of them final |
| `CorePick.Core.TakeTurn` | 3/20193018_PLUS-1/core.c:5861-5917 | one turn of the loop over the siblings does what the value-level turn does; max rises or the loop advances |
| `CorePick.Core.PickClass` | 3/20193018_PLUS-1/core.c:5859-5917 | the loop for one class terminates with every sibling picked or without an offer, and picks compatible and fair |
| `CorePick.Core.PickNextTask` | 3/20193018_PLUS-1/core.c:5846-5966 | terminates; every sibling gets a pick of its own runqueue; all busy ones have the core cookie; occ counts them; the leading task comes from the highest class that offers anything; no offer outranks both it and its sibling's pick; every other pick is what pick_task makes of its sibling's highest offer against the leader |
| `CorePick.Core.Visit` | 3/20193018_PLUS-1/core.c:5861-5916 | one sibling's turn: the picks stay compatible and fair, and a restart makes a better max |
| `CorePick.Core.WipeOthers` | 3/20193018_PLUS-1/core.c:5906-5911 | drops every pick but one |
| `Uclamp.ValueCovers` | 3/20193018_PLUS-1/core.c:1488-1520 | the cached value is at least every active task's clamp |
| `Uclamp.ValueIsTight` | 3/20193018_PLUS-1/core.c:1488-1520 | it exceeds the largest active clamp by less than the width of that clamp's bucket |
| `Uclamp.UniformBucketIsExact` | 3/20193018_PLUS-1/core.c:1483-1489 | while all tasks counted in a bucket since it was last empty ask for the same clamp, the bucket's value is that clamp, and so is the cached value if the bucket is the top one |
| `Uclamp.AddedGood` | 3/20193018_PLUS-1/core.c:1503-1517 | counting a task in keeps exact bucket counts, bucket values and the cached maximum |
| `Uclamp.RemovedGood` | 3/20193018_PLUS-1/core.c:1564-1592 | counting a task out keeps them too, and the idle value is taken over exactly when nobody is left |
| `Uclamp.BucketBelowCache` | 3/20193018_PLUS-1/core.c:1583-1588 | no nonempty bucket's value exceeds the cached one: the warning never fires |
| `Uclamp.EmptiedBucketKeepsValue` | 3/20193018_PLUS-1/core.c:1566-1577 | counting out writes no bucket value; an emptied bucket is at its base if and only if it was before, and not when the last clamp was above it |
| `Uclamp.ResetDoesNotHappen` | 3/20193018_PLUS-1/core.c:1571-1577 | a consistent index whose emptied bucket keeps 100 over its base 0 |
| `Uclamp.BucketMonotone` | 3/20193018_PLUS-1/core.c:1294-1297 | bucket numbers are in range and follow the order of clamps |
| `Uclamp.ClampIndex.MaxValue` | 3/20193018_PLUS-1/core.c:1341-1360 | the value of the topmost nonempty bucket, or the idle value when all are empty |
| `Uclamp.ClampIndex.IncId` | 3/20193018_PLUS-1/core.c:1491-1517 | in place, the whole new state of the index |
| `Uclamp.ClampIndex.DecId` | 3/20193018_PLUS-1/core.c:1529-1593 | in place, the whole new state of the index, and whether the idle flag is set |
| `Uclamp.RunQueue.constructor` | 3/20193018_PLUS-1/core.c:1907-1919 | an idle runqueue is consistent |
| `Uclamp.RunQueue.Inc` | 3/20193018_PLUS-1/core.c:1595-1617 | enqueueing counts the task under its two clamps and keeps both indexes and the idle flag right |
| `Uclamp.RunQueue.Dec` | 3/20193018_PLUS-1/core.c:1619-1637 | dequeueing undoes exactly that, and nothing for a task not counted |
| `Uclamp.RunQueue.ReclampMin` | 3/20193018_PLUS-1/core.c:1639-1654 | re-clamping the minimum of a counted task replaces its clamp |
| `Uclamp.RunQueue.ReclampMax` | 3/20193018_PLUS-1/core.c:1639-1654 | re-clamping the maximum likewise, with the idle flag set on the way cleared again |
| `Uclamp.RunQueue.Reclamp` | 3/20193018_PLUS-1/core.c:1656-1684 | both, if the task is counted |
| `GroupTree.WalkFrom` | 3/20193018_PLUS-1/core.c:1166-1195 | for any visitors and any state, the goto-based walk terminates with what a recursive traversal with early exit computes: the same calls in the same order |
| `GroupTree.VisitSettles` | 3/20193018_PLUS-1/core.c:10527-10558 | a traversal with tg_cfs_schedulable_down leaves every group it reached at its effective quota, all others untouched, and stops exactly at a group that does not fit |
| `GroupTree.FitsIff` | 3/20193018_PLUS-1/core.c:10549-10552 | every group passes the check against its parent if and only if no limit exceeds the limit of any group above it |
| `GroupTree.EffectiveDescends` | 3/20193018_PLUS-1/core.c:10549-10552 | then effective quotas never increase going down |
| `GroupTree.RatioIsShare` | 3/20193018_PLUS-1/core.c:4476-4490 | to_ratio is quota over period in microseconds, in units of 1 / 2^20, rounded down |
| `GroupTree.ExceedsIff` | 3/20193018_PLUS-1/core.c:10549-10552 | one limit compares above another if and only if a whole number of units lies within the one and beyond the other |
| `GroupTree.AcceptedAndRefused` | 3/20193018_PLUS-1/core.c:10527-10579 | limits that nest as fractions, cross-multiplied, are accepted; a limit a whole unit over an ancestor's is refused |
| `GroupTree.CfsSchedulable` | 3/20193018_PLUS-1/core.c:10560-10579 | returns 0 if and only if, with the proposal in place, no limit exceeds that of any group above it, -EINVAL otherwise; on success a limited group is held to its own quota over period, any other to what its parent is, and no group to more than an ancestor; on failure each is old or effective |
| `Reaping.RunInv` | 3/20193018_PLUS-1/exit.c:708-748 | the invariants of lists, claims and counters hold in every reachable state |
| `Reaping.ParentsAfter` | 3/20193018_PLUS-1/exit.c:666-702 | exit_notify gives exactly the exiting thread's children to the new reaper; no other action changes a parent |
| `Reaping.ZombieCanBeFound` | 3/20193018_PLUS-1/exit.c:666-702 | a zombie that can be reaped has a parent that has not exited, and every thread of the parent's group that is free to wait can find it |
| `Reaping.PhaseAfter` | 3/20193018_PLUS-1/exit.c:708-748 | exactly who becomes a zombie or dead, by which action |
| `Reaping.ExitPhases` | 3/20193018_PLUS-1/exit.c:719-742 | a thread that is not a leader, a lone leader whose parent does not want to hear of it, and unwanted zombie children die at exit, and are released in that order; any other leader becomes a zombie |
| `Reaping.ReleasePhases` | 3/20193018_PLUS-1/exit.c:229-277 | the zombie leader dies with the last other thread of its group, if the parent does not want to hear of it, and is released next |
| `Reaping.ChildTotalAfter` | 3/20193018_PLUS-1/exit.c:1158-1186 | only a fold changes a child total, and only that of the waiter's group, by the counts of the leader, its threads and the children it reaped |
| `Reaping.ReleasedAtMostOnce` | 3/20193018_PLUS-1/exit.c:229-277 | no task is released twice, and release_task is entered only for a dead task still on the lists |
| `Reaping.DeadTaskInOneHand` | 3/20193018_PLUS-1/exit.c:640-656 | a dead, unreleased task is in exactly one thread's hands, and never in none |
| `Reaping.ClaimIsFinal` | 3/20193018_PLUS-1/exit.c:1117-1127 | once some path has made a task dead no other path can take it over |
| `Reaping.OwnedGroupIsFrozen` | 3/20193018_PLUS-1/exit.c:1139-1160 | between winning the exchange and folding, nobody changes the signal counters or the membership the waiter reads without a lock |
| `Reaping.FoldedAtMostOnce` | 3/20193018_PLUS-1/exit.c:1117-1186 | a process is folded into a parent at most once |
| `Reaping.CountsAreConserved` | 3/20193018_PLUS-1/exit.c:1133-1186 | a process's child total is the sum, over the processes its threads reaped, of all their threads' counts and their child totals; over all processes nothing is lost or counted twice |
| `Reaping.SwitchesAreConserved` | 3/20193018_PLUS-1/exit.c:1133-1186 | the standing child totals plus the switches made after the counts were read are all switches made by the tasks of reaped processes |
| `Reaping.NothingLostIff` | 3/20193018_PLUS-1/exit.c:1133-1186 | the standing child totals equal all switches of the tasks of reaped processes if and only if none of those tasks switched after it was read |
| `Reaping.LateIsUncounted` | 3/20193018_PLUS-1/exit.c:139-186 | of a task that was read, exactly the switches made until then were counted; of any other, none |
| `Reaping.SwitchCanBeLost` | 3/20193018_PLUS-1/exit.c:1133-1186 | a run in which a reaped child switches once more and the switch is counted nowhere |
| `Reaping.FoldBooks` | 3/20193018_PLUS-1/exit.c:1160-1186 | folding keeps both laws of the counters: a group's own total and its child total |
| `Reaping.ReleaseBooks` | 3/20193018_PLUS-1/exit.c:139-196 | so does __exit_signal, which adds a thread's count to its group |
| `Reaping.ReleaseInv` | 3/20193018_PLUS-1/exit.c:229-277 | release_task, with the last thread taking the zombie leader along, keeps the invariant of lists and claims |
| `Reaping.ExitInv` | 3/20193018_PLUS-1/exit.c:640-748 | exit_notify with reparenting keeps it |

## Left out

- Menus, file reading and writing, random trace generation and output formatting of `4/as4.c`: I/O. `Simulate` returns the lines that would be printed.
- The trace length is a parameter instead of the constants 5000 and 4999, every address is assumed to lie in the virtual address space, and totalFrame is assumed to be at least 3 (the program uses 8 to 64).
- The distance scans of replacePageOptimal and replacePageLRU fill the whole array before the maximum is sought, instead of updating the maximum in the same pass; the write of an unchanged page number into the address record is omitted.
- C integers are unbounded here: virtual addresses have at most 20 bits and physical addresses stay below 64 KB, so nothing overflows.
- `1/newps.c`, `2/*.c` and `3/assignment3.c`: /proc reading, system-call glue and process creation, with easy properties only.
- The cpu_burst accounting and the forced FIFO policy in `core.c` and `exit.c`: they depend on the clock, and the field is overwritten rather than summed.
- Memory barriers, RCU, lockdep and preemption counts: memory is sequentially consistent and each locked section is one action.
- The stopper's flush of pending wake-ups is an activation that may come at any time, since a wake-up can arrive between the flush and the locks.
- CPU hotplug, cpuset fallback, MDF_PUSH and push_cpu_stop in the affinity protocol; one target task with any number of concurrent callers is modelled.
- The wake-up of the current task itself, freezer and signal details, and wake_q; at most one waker at a time holds the task's pi_lock.
- Scheduling-class internals and the cookie tree appear in `CorePick` only through what they offer. The fast paths of pick_next_task, force-idle bookkeeping and rescheduling of siblings are not modelled, and fair-class vruntime comparison stands for cfs_prio_less.
- CorePick.Core.PickNextTask: assumes that no two candidates on the core are tied (equal deadlines, different nonzero cookies), because the loop need not terminate otherwise.
- Task-group and system-wide restriction of clamps: the effective clamp is the value parameter. The sched_uclamp_used key and classes without clamps appear as tasks that are not counted.
- Groups on the unified hierarchy (the branch at core.c:10546) and burst: the first relies on the machine encoding of the infinite quota. 64-bit shifts in to_ratio do not overflow for quotas within max_cfs_runtime and are unbounded here.
- How tasks are created: kernel/fork.c is not part of this model. `Reaping` assumes that a new thread joins its creator's group under the same parent and that a new process is its creator's child.
- Ptrace, exec, pid namespaces and WNOWAIT in exit and reaping. The notification result of do_notify_parent and the choice of a new reaper among those allowed are arbitrary.
- Of the counters folded at exit only voluntary context switches are modelled; the others go through the same statements, except the maximum resident size.
