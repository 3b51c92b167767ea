# AdvancedFlowScheduler core in Dafny

This project models the core of AdvancedFlowScheduler, an offline scheduler for Time-Sensitive
Networking (TSN).  Periodic flows are placed on the egress queues of a network within one
hyper-cycle (the least common multiple of all periods), measured in ticks.  Every frame of every
period gets one transmission slot on each queue of its path.  The model covers these parts:

- the time-slot bookkeeping of `NetworkUtilizationList` (`slots.dfy`, `utilization_list.dfy`).
  Each queue has a free list and a reserved list, and the two tile the hyper-cycle.  The model
  covers reserving, freeing, removing configurations, sorting and the search for transmission
  opportunities;
- the placement strategies ASAP, Balanced and Hermes (`placement.dfy`);
- the schedulers FirstFit, EarliestDeadlineFirst and the simplified HERMES (`first_fit.dfy`,
  `edf.dfy`, `hermes.dfy`), and the flow orderings and bottleneck heuristic they use
  (`flow_sorting.dfy`, `bottleneck.dfy`);
- the schedule checks `ScheduleVerifier` and the flow-integrity check (`schedule_verifier.dfy`,
  `flow_integrity.dfy`) and the statistics helpers (`util_statistics.dfy`).  The checks look
  up every queue's source and destination in the graph (findSourceNodeOfQueue) and every slot's
  flow; a failed lookup is one of the outcomes, and a graph the parser builds is proved to pass
  every lookup;
- the utility functions: hyper-cycle, transmission delay, frame counts (`util_functions.dfy`);
- the multi-layered graph store: devices, egress queues, flows, configurations and their queue
  usage (`graph.dfy`);
- the network part of the input parser (`input_parser.dfy`);
- routing: Dijkstra over egress queues, DijkstraOverlap and K-shortest paths (`routing.dfy`,
  `dijkstra_overlap.dfy`, `k_shortest.dfy`);
- the Python generators `create_network_graph.py` and `create_scenario.py`
  (`network_graph.dfy`, `scenario_network.dfy`, `scenario.dfy`).

Code that updates objects in place is modelled as classes with `modifies` clauses:
`NetworkUtilizationList`, `MultiLayeredGraph`, the EDF and Hermes schedulers, and the scenario
generator's state.  Its loops are methods whose `ensures` tie the result to a specification
function.  Pure computations are modelled as functions, and the lemmas beside them prove what
the source promises: tiling invariants, first-fit choices, round trips, permutations and bounds.

Fixed-width arithmetic is written out where it matters:
- `size_t` subtraction in the effective deadline and in Hermes' latest offset (`WrapSub`);
- `SIZE_MAX` for the end of a slot.

Hash-map iteration orders, random draws and floating-point ratings are parameters of the model:
an order sequence, a `roll` oracle, or a given admitted set.

## Model

| member | source | states |
|---|---|---|
| Sorting.SortByKey | include/util/UtilFunctions.h:222-224 | the result is sorted by the comparator's key and is a permutation of the input (the std::ranges::sort calls of the core) |
| UtilFunctions.VectorContains | include/util/UtilFunctions.h:12-16 | true exactly when the value occurs in the vector |
| UtilFunctions.HyperCycle | include/util/UtilFunctions.h:29-43 | the lcm fold from 1: no periods give 1, any period 0 gives 0, otherwise the result is positive and every period divides it |
| UtilFunctions.HyperCycleLeast | include/util/UtilFunctions.h:29-43 | the hyper-cycle is the least common multiple: it divides every positive common multiple of the periods |
| UtilFunctions.LcmLeast | include/util/UtilFunctions.h:38-42 | std::lcm divides every positive common multiple of its arguments |
| UtilFunctions.Bezout | include/util/UtilFunctions.h:38-42 | the gcd std::lcm divides by is an integer combination of the two arguments |
| UtilFunctions.HyperCycleOfFourPeriods | test/UtilTest.cpp:58-64 | periods 10, 15, 25 and 10 give the hyper-cycle 150 |
| UtilFunctions.LcmIsCommonMultiple | include/util/UtilFunctions.h:38-42 | std::lcm of two values is a multiple of both, and positive when both are |
| UtilFunctions.GcdDividesBoth | include/util/UtilFunctions.h:53-57 | std::gcd divides both arguments |
| UtilFunctions.GcdGreatest | include/util/UtilFunctions.h:53-57 | every common divisor divides std::gcd |
| UtilFunctions.GcdPeriod | include/util/UtilFunctions.h:45-59 | the gcd of the periods divides every period (the caller must supply at least one period) |
| UtilFunctions.GcdPeriodGreatest | include/util/UtilFunctions.h:45-59 | every common divisor of the periods divides their gcd period |
| UtilFunctions.TransmissionDelay | include/util/UtilFunctions.h:66-69 | (size * 8) / 1000 rounded down: 125 * tx <= size < 125 * (tx + 1) |
| UtilFunctions.NumberOfFrames | include/util/UtilFunctions.h:163-192 | no flows give 0 frames, one flow gives hyper_cycle / period, and the count covers hyper_cycle / period of every listed flow |
| UtilFunctions.SevenFrames | include/util/UtilFunctions.h:163-192 | periods 250, 500 and 1000 in a hyper-cycle of 1000 make 7 frames |
| UtilFunctions.NumberOfFramesAppend | include/util/UtilFunctions.h:163-192 | the frame count of two flow collections is the sum of their counts; with the one-flow case this fixes the count as the sum of hyper_cycle / period |
| Slots.Compare | include/solver/UtilizationList.h:25-31 | reserved slots compare by start time, then by next slot start; flow and config are ignored |
| Slots.EquivalentIsNotEquality | include/solver/UtilizationList.h:23-31 | two different slots (differing in flow or config only) compare equivalent, so the ordering is coarser than operator== |
| Slots.SlotsOfFlow | include/solver/UtilizationList.h:75-82 | getReservedSlotsOf yields exactly the stored slots whose flow matches |
| Slots.SlotsOfFlowAppend | include/solver/UtilizationList.h:75-82 | the filter keeps the stored order: it distributes over concatenation |
| Slots.ChainedIsValid | include/solver/UtilizationList.h:120-126 | a free list that is sorted with gaps between neighbours is exactly one that is sorted, non-touching and inside the hyper-cycle overall |
| Slots.FreeListCanonical | include/solver/UtilizationList.h:120-126 | two valid free lists with the same free ticks are equal |
| Slots.LastTickBefore | src/solver/UtilizationList.cpp:233 | next_slot_start - 1 in size_t: one below next, and SIZE_MAX for 0 |
| Slots.FindContaining | src/solver/UtilizationList.cpp:235-239 | find_if: the first free slot that can host [start, next), or none when no slot can |
| Slots.CarveAt | src/solver/UtilizationList.cpp:245-259 | reserveSlot's four cases: an exact fit erases the slot, a split adds one, the others keep the count; every other slot keeps its place |
| Slots.CarveAtTicks | src/solver/UtilizationList.cpp:245-259 | carving a non-empty reservation out of a valid free list keeps it valid and removes exactly the reserved ticks |
| Slots.CarveThenFreeRestores | src/solver/UtilizationList.cpp:130-198 | reserving [start, next) and giving back the same ticks restores the free list exactly |
| Slots.InsertFreed | src/solver/UtilizationList.cpp:187-191 | freeSlot's plain insert between two non-touching neighbours keeps the list valid and adds exactly [begin, end) |
| Slots.ExtendFreedAfter | src/solver/UtilizationList.cpp:178-181 | freeSlot's merge into the preceding slot keeps the list valid and adds exactly [begin, end) |
| Slots.ExtendFreedBefore | src/solver/UtilizationList.cpp:183-186 | freeSlot's merge into the following slot keeps the list valid and adds exactly [begin, end) |
| Slots.MergeFreed | src/solver/UtilizationList.cpp:170-176 | freeSlot's merge of both neighbours across the freed gap keeps the list valid and adds exactly [begin, end) |
| UtilizationList.WrapSub | src/solver/UtilizationList.cpp:45 | size_t subtraction: the difference of two size_t values modulo 2^64 |
| UtilizationList.WrapAdd | src/solver/UtilizationList.cpp:62 | size_t addition: the sum of two size_t values modulo 2^64 |
| UtilizationList.ReserveState | src/solver/UtilizationList.cpp:224-261 | reserveSlot as a value: the arrival and the reservation are appended in every case, only the request's free list is edited, and no list is added or lost |
| UtilizationList.ReserveAll | src/solver/Placement.cpp:48-54 | a run of reserveSlot calls keeps the number of lists per kind |
| UtilizationList.ReserveAllCounts | src/solver/Placement.cpp:48-54 | after a run, each queue holds one more reservation and one more arrival per request sent to it, whatever reserveSlot returned |
| UtilizationList.QueueRequests | src/solver/Placement.cpp:48-54 | the requests of a run for one queue are exactly those addressed to it |
| UtilizationList.FreeRunInOneSlot | src/solver/UtilizationList.cpp:235-239 | on a valid free list, a run of free ticks always lies inside one slot, so find_if succeeds |
| UtilizationList.ReserveKeepsTiles | src/solver/UtilizationList.cpp:229-260 | an accepted reservation keeps free and reserved slots tiling [0, hyper_cycle) |
| UtilizationList.RefusedReserveBreaksTiles | src/solver/UtilizationList.cpp:229-241 | a refused reservation, already appended, leaves the queue no longer tiled |
| UtilizationList.KeptSlots | src/solver/UtilizationList.cpp:102-108 | the reservations removeConfigs keeps are no more than the stored ones |
| UtilizationList.PartitionMembers | src/solver/UtilizationList.cpp:102-108 | stable_partition keeps exactly the slots of unlisted flows and removes exactly those of listed flows |
| UtilizationList.PartitionIsPermutation | src/solver/UtilizationList.cpp:102-108 | kept and removed slots together are a permutation of the stored slots |
| UtilizationList.KeptSlotsAppend | src/solver/UtilizationList.cpp:102-108 | kept slots keep their relative order: the filter distributes over concatenation |
| UtilizationList.KeptArrivalsMembers | src/solver/UtilizationList.cpp:119-126 | the arrival records kept are exactly those of unlisted flows |
| UtilizationList.SubMultisetValid | src/util/ScheduleVerifier.cpp:125-184 | every sub-multiset of a valid reserved list is valid |
| UtilizationList.DropEnded | src/solver/UtilizationList.cpp:47-51 | drop_while skips exactly a prefix of slots that end too early for the frame |
| UtilizationList.DropEndedIsSuffix | src/solver/UtilizationList.cpp:68 | drop_while leaves a suffix of the list |
| UtilizationList.FindSlot | src/solver/UtilizationList.cpp:67-77 | the slot the views pipeline picks is a slot of the list that fits the frame before the deadline |
| UtilizationList.FirstFitIndex | src/solver/UtilizationList.cpp:59-63 | reference definition: the index of the first slot that fits, or none exactly when no slot fits |
| UtilizationList.FindSlotIsFirstFit | src/solver/UtilizationList.cpp:66-77 | on a valid free list without wrap-around, the pipeline picks exactly the first slot of the whole list that fits |
| UtilizationList.DropEndedKeepsFirstFit | src/solver/UtilizationList.cpp:68 | the slots drop_while skips cannot fit, so the first fit is unchanged |
| UtilizationList.SearchFrom | src/solver/UtilizationList.cpp:66-92 | a successful search yields one request per hop |
| UtilizationList.SearchFromHops | src/solver/UtilizationList.cpp:79-83 | each request lies in a free slot of its hop, is tx ticks long, starts no earlier than the frame arrives and ends before the effective deadline |
| UtilizationList.SearchFromChain | src/solver/UtilizationList.cpp:79-83 | the first request starts from the release time; each next arrival is previous send + tx + propagation + processing delay |
| UtilizationList.SearchPath | src/solver/UtilizationList.cpp:66-92 | the all_of loop returns the search's requests, or [] as soon as one hop has no slot |
| UtilizationList.EffectiveDeadline | src/solver/UtilizationList.cpp:45 | deadline - tx - propagation delay computed in size_t |
| UtilizationList.SearchRequests | src/solver/UtilizationList.cpp:33-93 | without wrap-around the search returns nothing or one request per hop, each inside a free slot, tx long, after the arrival, ending by deadline - propagation delay, with arrivals chained hop to hop |
| UtilizationList.NoWrap | src/solver/UtilizationList.cpp:45 | with deadline >= tx + propagation delay the effective deadline is the plain difference |
| UtilizationList.ShortDeadlineFindsNothing | src/solver/UtilizationList.cpp:45 | a deadline no later than tx makes the size_t subtraction wrap, and then no slot is found on any link |
| UtilizationList.SortedByStartNextIsCompareOrder | src/solver/UtilizationList.cpp:289-294 | sorting by (start, next) is sorting by the slot ordering operator<=> |
| UtilizationList.NetworkUtilizationList.constructor | src/solver/UtilizationList.cpp:12-20 | a new list has one free slot [0, hyper_cycle - 1] per link and no reservation or arrival |
| UtilizationList.NetworkUtilizationList.Clear | src/solver/UtilizationList.cpp:274-287 | clear leaves one free slot [0, hyper_cycle - 1] per link (SIZE_MAX for a hyper-cycle of 0) and empty reserved and arrival lists |
| UtilizationList.NetworkUtilizationList.ReserveSlot | src/solver/UtilizationList.cpp:224-261 | returns true iff a free slot contains the request; the new state is ReserveState of the old one |
| UtilizationList.NetworkUtilizationList.FreeReservedSlot | src/solver/UtilizationList.cpp:130-198 | freeSlot adds exactly [begin, end) to the queue's free ticks, keeps the free list valid (merged, never touching) and changes no other list |
| UtilizationList.NetworkUtilizationList.RemoveConfigs | src/solver/UtilizationList.cpp:96-128 | every queue keeps exactly the reservations and arrivals of unlisted flows in stored order, its free ticks gain exactly the removed intervals, and the tiling is kept |
| UtilizationList.NetworkUtilizationList.RemoveQueue | src/solver/UtilizationList.cpp:99-127 | one turn of the queue loop: queue q keeps exactly the reservations and arrivals of unlisted flows in stored order, its free ticks gain exactly the removed intervals, the tiling is kept and no other queue changes |
| UtilizationList.NetworkUtilizationList.SortReservedEgressSlots | src/solver/UtilizationList.cpp:289-294 | every reserved list becomes a sorted permutation of itself; the tiling is kept |
| UtilizationList.NetworkUtilizationList.SearchTransmissionOpportunities | src/solver/UtilizationList.cpp:33-93 | the result is Search of the current free lists, and nothing changes |
| UtilizationList.NetworkUtilizationList.FramesPerHyperCycle | src/solver/UtilizationList.cpp:295-298 | hyper_cycle / period rounded down: n * period <= hyper_cycle < (n + 1) * period |
| UtilizationList.FreeAllSorted | src/solver/UtilizationList.cpp:114-116 | freeing every sorted removed slot in turn leaves the free list tiled with the kept slots and gains exactly the removed ticks |
| UtilizationList.FreeNext | src/solver/UtilizationList.cpp:114-116 | one freeSlot call in the loop extends the freed prefix by one slot |
| UtilizationList.RemovedTiles | src/solver/UtilizationList.cpp:96-128 | giving back exactly the removed reservations restores the tiling with the kept ones |
| UtilizationList.KeptApartFromRemoved | src/solver/UtilizationList.cpp:102-108 | a kept and a removed reservation never share a tick |
| UtilizationList.SameMultisetSameTicks | src/solver/UtilizationList.cpp:110-112 | reordering a reserved list does not change the ticks it reserves |
| UtilizationList.NextRemovedNotFree | src/solver/UtilizationList.cpp:114-116 | the next slot to free is still reserved, so none of its ticks is free yet |
| UtilizationList.InsertFreedInterval | src/solver/UtilizationList.cpp:137-158 | freeSlot's corner cases on one list: the new free list is the old one with exactly [begin, end) added |
| UtilizationList.ScanFreed | src/solver/UtilizationList.cpp:160-197 | freeSlot's pair scan merges [begin, end) into the first gap that holds it |
| UtilizationList.FillGap | src/solver/UtilizationList.cpp:171-191 | merging, extending either neighbour or inserting between them adds exactly [begin, end) |
| ScheduleVerifier.FindSourceFinds | src/util/ScheduleVerifier.cpp:20-32 | the search over the destination's neighbours finds nothing exactly when none of them has the queue, and what it finds is such a neighbour |
| ScheduleVerifier.SearchQueues | src/util/ScheduleVerifier.cpp:24-30 | the inner loop finds the queue exactly when the suspect device has a queue with that id |
| ScheduleVerifier.FindSourceNodeOfQueue | src/util/ScheduleVerifier.cpp:13-34 | the two loops return exactly the search's result: the first neighbour of the destination that has the queue, or nothing |
| ScheduleVerifier.FindPorts | src/util/ScheduleVerifier.cpp:13-34 | a queue past the queue vector throws std::out_of_range, a queue no neighbour of its destination has throws "not full duplex", otherwise the port is its source and destination |
| ScheduleVerifier.HasQueueIsOwner | src/util/ScheduleVerifier.cpp:24-30 | with queue ids equal to their indices, a device has the queue exactly when the queue lies in its slice |
| ScheduleVerifier.SourceIsOwner | src/util/ScheduleVerifier.cpp:13-34 | with queue ids equal to their indices, the lookup succeeds exactly when the destination has a queue back to the queue's owner, and then names that owner |
| ScheduleVerifier.FullDuplexIff | src/util/ScheduleVerifier.cpp:13-34 | with queue ids equal to their indices, no queue's lookup throws exactly when every queue's destination has a queue back to its owner |
| ScheduleVerifier.FreeOrderErrorIff | src/util/ScheduleVerifier.cpp:43-117 | a free list passes the scan exactly when it is valid: non-empty slots inside [0, hyper_cycle), sorted, never overlapping or adjacent |
| ScheduleVerifier.CheckFreeList | src/util/ScheduleVerifier.cpp:49-114 | the slot loop of one queue returns the first broken rule and its slot index, and nothing exactly when the free list is valid |
| ScheduleVerifier.FreeViolationFrom | src/util/ScheduleVerifier.cpp:43-117 | the scan from queue q finds nothing exactly when every later queue's port lookup succeeds and its free list is valid; a report names an existing queue |
| ScheduleVerifier.CheckFreeSlotOrder | src/util/ScheduleVerifier.cpp:43-117 | checkFreeSlotOrder looks up each queue's ports, then scans its slots, and reports the first failure; nothing exactly when every lookup succeeds and every free list is valid |
| ScheduleVerifier.ReservedOrderErrorIff | src/util/ScheduleVerifier.cpp:125-184 | a reserved list passes the scan exactly when its slots are non-empty, each starts at or after the previous end, and all end by hyper_cycle |
| ScheduleVerifier.CheckReservedList | src/util/ScheduleVerifier.cpp:130-181 | the slot loop of one queue returns the first broken rule and its slot index, and nothing exactly when the reserved list passes |
| ScheduleVerifier.ReservedChainedSorted | src/util/ScheduleVerifier.cpp:125-184 | in a list that passes, every slot ends no later than any later slot starts |
| ScheduleVerifier.ReservedChainedIsValid | src/util/ScheduleVerifier.cpp:125-184 | a list that passes is non-empty per slot, pairwise disjoint and inside the hyper-cycle |
| ScheduleVerifier.ReservedViolationFrom | src/util/ScheduleVerifier.cpp:125-184 | the scan from queue q finds nothing exactly when every later queue's port lookup succeeds and its reserved list passes |
| ScheduleVerifier.CheckReservedSlotOrder | src/util/ScheduleVerifier.cpp:125-184 | checkReservedSlotOrder looks up each queue's ports, then scans its slots, and reports the first failure; nothing exactly when every lookup succeeds and every reserved list passes |
| ScheduleVerifier.InverseViolationFromAccepts | src/util/ScheduleVerifier.cpp:190-219 | the per-queue lookup and walk report nothing exactly when every later queue's ports resolve and its walk reaches the hyper-cycle |
| ScheduleVerifier.CheckSlotsForInverses | src/util/ScheduleVerifier.cpp:185-220 | a count mismatch, a failed port lookup or a stuck walk is reported; nothing exactly when the counts agree and every queue's ports resolve and its walk reaches hyper_cycle |
| ScheduleVerifier.CoverFreeStep | src/util/ScheduleVerifier.cpp:199-201 | taking the free slot at the walk's tick extends the exact cover to one past its last tick |
| ScheduleVerifier.CoverReservedStep | src/util/ScheduleVerifier.cpp:202-204 | taking the reserved slot at the walk's tick extends the exact cover to its end |
| ScheduleVerifier.WalkCovers | src/util/ScheduleVerifier.cpp:198-218 | a walk that uses up both lists leaves them covering [0, hyper_cycle) exactly once |
| ScheduleVerifier.TilesWalk | src/util/ScheduleVerifier.cpp:198-218 | on lists that tile the hyper-cycle, the walk reaches hyper_cycle with both lists used up |
| ScheduleVerifier.InverseWalkTiles | src/util/ScheduleVerifier.cpp:198-218 | the intended check (walk reaches hyper_cycle with both lists used up) holds exactly when free and reserved slots partition [0, hyper_cycle) |
| ScheduleVerifier.InverseCheckMissesOverlap | src/util/ScheduleVerifier.cpp:198-218 | the check as written accepts free [0, 9] with a reserved [2, 3) inside it on a hyper-cycle of 10, which is not a partition |
| FlowIntegrity.Window | src/util/ScheduleVerifier.cpp:258-264 | strand i's window spans exactly one period, with an empty path |
| FlowIntegrity.NewTrackerWindows | src/util/ScheduleVerifier.cpp:245-267 | a fresh tracker has hyper_cycle / period strands whose windows are consecutive, start at tick 0 and end at the hyper-cycle's last tick |
| FlowIntegrity.CreateFlowTracker | src/util/ScheduleVerifier.cpp:245-267 | the tracker is NewTracker; it fails exactly when the period is below 1 or does not divide the hyper-cycle |
| FlowIntegrity.ProcessSlot | src/util/ScheduleVerifier.cpp:324-496 | a closed flow fails with a stray frame; a slot that passes has the transmission-delay length, lies in its strand window, starts at the source or at the last receiver after the previous frame, extends a loop-free path and closes the strand or flow at the destination |
| FlowIntegrity.NewTrackerOk | src/util/ScheduleVerifier.cpp:245-267 | a fresh tracker satisfies the tracker invariant |
| FlowIntegrity.ProcessSlotKeepsTracker | src/util/ScheduleVerifier.cpp:324-496 | processing a slot keeps the tracker invariant: finished strands are loop-free routes from source to destination |
| FlowIntegrity.MinScan | src/util/ScheduleVerifier.cpp:296-304 | the scan returns the first smallest next start below hyper_cycle and its port, or hyper_cycle when there is none |
| FlowIntegrity.CountOpenZero | src/util/ScheduleVerifier.cpp:284-295 | no open port is left exactly when every cursor is past its list |
| FlowIntegrity.EarliestSlotFirst | src/util/ScheduleVerifier.cpp:295-310 | the chosen port holds the earliest unprocessed slot, ties go to the lowest port index, and nothing is chosen exactly when all ports are used up |
| FlowIntegrity.Step | src/util/ScheduleVerifier.cpp:295-506 | one pass of the main loop ends only when every cursor is past its list, and otherwise moves one cursor |
| FlowIntegrity.StepAtKeeps | src/util/ScheduleVerifier.cpp:312-505 | serving one slot keeps cursors and trackers well formed, leaves fewer slots to visit and keeps every visited flow tracked |
| FlowIntegrity.InitialStarts | src/util/ScheduleVerifier.cpp:284-294 | each port's first start, hyper_cycle for an empty port, and the count of non-empty ports |
| FlowIntegrity.EarliestQueue | src/util/ScheduleVerifier.cpp:296-304 | the loop returns exactly MinScan's port and start |
| FlowIntegrity.AdvanceCursor | src/util/ScheduleVerifier.cpp:498-505 | the port's cursor moves past the slot, its next start and the open count are updated, and fewer slots remain |
| FlowIntegrity.ServeSlot | src/util/ScheduleVerifier.cpp:312-496 | the loop body equals StepAt: a slot of a flow the graph lacks throws, then the queue's ports are looked up, the tracker is created on the first slot of a flow, and the slot is processed |
| FlowIntegrity.CheckFlowIntegrity | src/util/ScheduleVerifier.cpp:281-521 | the method reports exactly IntegrityResult over the graph's port lookups: the first unknown flow, failed lookup or broken rule, or an unfinished flow |
| FlowIntegrity.IntegrityTracksAll | src/util/ScheduleVerifier.cpp:295-506 | a finished loop has a tracker satisfying the invariant for every flow that owns a slot |
| FlowIntegrity.AcceptedFlowsDelivered | src/util/ScheduleVerifier.cpp:508-520 | in an accepted schedule every reserved slot belongs to a flow of the graph, and every such flow delivers one frame per period window, each on a loop-free route from source to destination |
| FlowIntegrity.ClosedTrackerDelivered | src/util/ScheduleVerifier.cpp:488-490 | a closed flow's tracker has delivered every strand |
| FlowIntegrity.VerifySchedule | src/util/ScheduleVerifier.cpp:522-536 | the four checks in order over the graph's flows and queues; the first violation is reported |
| FlowIntegrity.QueueLeadsToNeighbour | include/IO/InputParser.h:80-85 | in a graph built from neighbour lists, every queue of a device leads to one of its neighbours |
| FlowIntegrity.NeighbourReached | include/IO/InputParser.h:80-85 | in a graph built from neighbour lists, every device has a queue to each of its neighbours |
| FlowIntegrity.SymmetricGraphLooksUp | src/util/ScheduleVerifier.cpp:13-34 | a graph built from symmetric neighbour lists is full duplex and no port lookup throws |
| FlowIntegrity.ParsedGraphLooksUp | include/IO/InputParser.h:55-87 | the graph parseNetworkGraph builds passes every port lookup of the verifier |
| FlowIntegrity.AcceptedSchedule | src/util/ScheduleVerifier.cpp:522-536 | an accepted schedule has resolvable ports for every queue, valid free lists, ordered disjoint reserved lists, walks that reach the hyper-cycle, only flows of the graph, and delivered flows |
| Placement.FramesFit | src/solver/Placement.cpp:30-36 | the frames of one hyper-cycle end within it: (hyper_cycle / period) * period <= hyper_cycle |
| Placement.OffsetFrames | src/solver/Placement.cpp:35-42 | one search per frame of the hyper-cycle |
| Placement.FlattenMembers | src/solver/Placement.cpp:48-52 | the flattened requests are exactly those of some frame |
| Placement.SearchOnPath | src/solver/UtilizationList.cpp:66-81 | request k of a search is on hop k of the path |
| Placement.FrameOnPath | src/solver/Placement.cpp:35-36 | the requests of frame i are on the hops of the path, in order |
| Placement.FramesOnPath | src/solver/Placement.cpp:48-52 | every request to be reserved is on a link of the list |
| Placement.AsapFrames | src/solver/Placement.cpp:30-42 | the ASAP frames lie within the hyper-cycle and address existing queues |
| Placement.BalancedOptions | src/solver/Placement.cpp:73-93 | one option per sub-cycle offset (period / sub_cycle of them); option s holds the frames released at s * sub_cycle + i * period when all fit, else nothing |
| Placement.SizeTDiff | src/solver/Placement.cpp:107 | size_t subtraction of two times; the plain difference when it does not wrap |
| Placement.SlowestE2E | src/solver/Placement.cpp:106-115 | the end-to-end time of the slowest frame: no frame is slower and one frame attains it |
| Placement.BestOption | src/solver/Placement.cpp:95-116 | min_element over the non-empty options: none exactly when all are empty, otherwise the first option with the smallest score |
| Placement.LatestCandidate | src/solver/Placement.cpp:136-147 | max_element by start over the slots starting by the latest offset and longer than tx: none exactly when no slot qualifies, otherwise the first one with the latest start |
| Placement.HermesAlwaysReserves | src/solver/Placement.cpp:149-154 | with a candidate slot and a frame of at least 125 bytes, the request lies inside the chosen slot, so reserveSlot succeeds |
| Placement.ReserveAllKeepsTiles | src/solver/Placement.cpp:48-52 | reserving chronological requests on free ticks succeeds at every call and keeps every queue tiled |
| Placement.ChainChronological | src/solver/UtilizationList.cpp:79-83 | the hops of a found frame follow one another in time |
| Placement.FoundRequests | src/solver/UtilizationList.cpp:33-93 | a found frame's hops are chronological, cover free ticks between release and deadline, and run end to end from the release |
| Placement.FoundFrame | src/solver/Placement.cpp:35-36 | a found frame i lies in its own period: released at offset + i * period, done by (i + 1) * period |
| Placement.FlattenChronological | src/solver/Placement.cpp:48-52 | frames each in their own period, in period order, are chronological as a whole and end by frames * period |
| Placement.FoundFramesKeepTiles | src/solver/Placement.cpp:35-52 | reserving frames that all searches found succeeds at every call and keeps every queue tiled |
| Placement.AsapKeepsTiles | src/solver/Placement.cpp:25-55 | placeConfigASAP keeps a consistent list consistent; on success every reservation was accepted |
| Placement.BalancedKeepsTiles | src/solver/Placement.cpp:60-127 | placeConfigBalanced keeps a consistent list consistent; on success every reservation was accepted |
| Placement.OptionKeepsTiles | src/solver/Placement.cpp:78-93 | a non-empty option holds frames found at its offset, and reserving them keeps the list tiled |
| Placement.FlattenSize | src/solver/Placement.cpp:48-54 | a successful ASAP reserves frames x path-length requests |
| Placement.HermesKeepsTiles | src/solver/Placement.cpp:128-155 | hermesPlacement on a consistent list succeeds and keeps it consistent |
| Placement.ReserveFrames | src/solver/Placement.cpp:48-52 | the nested for_each leaves the list in ReserveAll of the flattened requests |
| Placement.ReserveFrame | src/solver/Placement.cpp:49-51 | the inner for_each reserves the requests of one more frame |
| Placement.ConsistentIsTiled | include/solver/UtilizationList.h:120-133 | consistency of the list object is the tiling of its state |
| Placement.SearchFrames | src/solver/Placement.cpp:35-42 | the all_of returns whether every frame was found, and then the frames found; nothing changes |
| Placement.SearchFrame | src/solver/Placement.cpp:36 | the search of frame i with release offset + i * period and deadline (i + 1) * period |
| Placement.PlaceConfigAsap | src/solver/Placement.cpp:25-55 | the result and the new list state are AsapOutcome of the old state; consistency is kept for frames of at least 125 bytes |
| Placement.PlaceConfigBalanced | src/solver/Placement.cpp:60-127 | the result and the new list state are BalancedOutcome of the old state; consistency is kept for frames of at least 125 bytes |
| Placement.CollectOptions | src/solver/Placement.cpp:78-93 | the offset loop builds exactly BalancedOptions; nothing changes |
| Placement.HermesPlacement | src/solver/Placement.cpp:128-155 | the result and the new state are HermesOutcome; on a consistent list it succeeds and keeps consistency |
| Placement.PlaceConfig | src/solver/Placement.cpp:6-23 | ASAP and BALANCED dispatch to their placements; HERMES returns false and changes nothing |
| UtilStatistics.LinkUtilization | include/util/UtilFunctions.h:79-102 | every egress queue of the graph, and nothing else, maps to the sum of next_slot_start - start_time over its reservations |
| UtilStatistics.RangeSize | include/util/UtilFunctions.h:91-92 | [a, b) holds b - a ticks |
| UtilStatistics.ReservedTicksCountsTicks | include/util/UtilFunctions.h:85-93 | for a valid reserved list the utilization is the number of distinct reserved ticks |
| UtilStatistics.ReservedSetSplit | include/util/UtilFunctions.h:85-93 | the reserved ticks of a valid list are those of its first slot plus, disjoint from them, those of the rest |
| UtilStatistics.CountArrivedAppend | include/util/UtilFunctions.h:234-237 | arrivals counted up to t add up over concatenation |
| UtilStatistics.CountArrivedPermutation | include/util/UtilFunctions.h:222-224 | sorting the arrivals does not change how many arrived up to t |
| UtilStatistics.CountSorted | include/util/UtilFunctions.h:234-237 | on arrivals sorted by time, the cursor stops exactly after the arrivals up to t |
| UtilStatistics.BacklogIsLargestDifference | include/util/UtilFunctions.h:231-241 | when no slot sends before enough arrivals, the backlog is the largest (arrived up to slot k) - k, reached at some slot, and at most the arrivals |
| UtilStatistics.QueueMaxSize | include/util/UtilFunctions.h:219-242 | the cursor loop over one queue returns exactly QueueBacklog |
| UtilStatistics.BacklogStep | include/util/UtilFunctions.h:234-240 | once the cursor passed all arrivals up to slot k's start, the running maximum takes in slot k |
| UtilStatistics.SkipIsHarmless | include/util/UtilFunctions.h:219-221 | skipping a queue with fewer arrivals than the current maximum does not change the result: it is the largest backlog over all switch queues |
| UtilStatistics.MaxQueueSize | include/util/UtilFunctions.h:208-248 | the reserved lists are sorted in place (free lists and arrivals unchanged) and the result is MaxOverQueues of the sorted state |
| UtilStatistics.MaxOverQueueList | include/util/UtilFunctions.h:212-245 | the loop over the queues returns MaxOverQueues |
| UtilStatistics.SchedulingTableSizes | include/util/UtilFunctions.h:255-264 | one entry per queue, in queue order, equal to its number of reservations |
| UtilStatistics.TableSizesAfterReservations | include/util/UtilFunctions.h:255-264 | a run of reserveSlot calls grows each queue's entry by the requests sent to it |
| Bottleneck.SlotContribution | include/solver/ConfigurationRating/Configuration/BottleneckHeuristic.h:37-45 | a slot contributes exactly its free ticks before the deadline: whole before, 0 after, deadline - first when straddling |
| Bottleneck.CapacityCountsFreeTicks | include/solver/ConfigurationRating/Configuration/BottleneckHeuristic.h:31-47 | on a valid free list the remaining capacity is the number of free ticks before the deadline |
| Bottleneck.FreeBeforeSplit | include/solver/ConfigurationRating/Configuration/BottleneckHeuristic.h:34 | the free ticks before the deadline are those of the first slot plus, disjoint from them, those of the rest |
| Bottleneck.CapacityAndUtilizationSum | include/solver/ConfigurationRating/Configuration/BottleneckHeuristic.h:31-47 | with the deadline at the hyper-cycle, remaining capacity plus link utilization is the hyper-cycle |
| Bottleneck.FirstMinimum | include/solver/ConfigurationRating/Configuration/BottleneckHeuristic.h:23-25 | min_element: the first smallest index of the range, or its end for an empty range |
| Bottleneck.BottleneckLink | include/solver/ConfigurationRating/Configuration/BottleneckHeuristic.h:22-25 | the first and last link are ignored; with two links the empty range yields the last link |
| Bottleneck.PathCapacities | include/solver/ConfigurationRating/Configuration/BottleneckHeuristic.h:23-24 | the remaining capacity of each link of the path up to the period |
| Bottleneck.BottleneckCapacity | include/solver/ConfigurationRating/Configuration/BottleneckHeuristic.h:22-24 | the rating key as evidently intended: the remaining capacity of a link other than the first, no larger than any interior link's |
| Bottleneck.BottleneckQueue | include/solver/ConfigurationRating/Configuration/BottleneckHeuristic.h:16-26 | what rate reports as written (without the 1 / config tie-breaker): the queue id of a path entry other than the first, whose remaining capacity is the bottleneck capacity |
| Bottleneck.RankedByQueueId | include/solver/ConfigurationRating/Configuration/BottleneckHeuristic.h:22-25 | two paths whose reported values (queue ids 1 and 2) rank them opposite to their bottleneck capacities (10 and 0) |
| FlowSorting.RanksBelow | include/solver/FlowSorting/LowPeriodFlowsFirst.h:17-30 | lhs ranks below rhs iff rhs has a smaller period, or the same period and a larger frame, or both equal and a smaller id |
| FlowSorting.RanksBelowIsStrictOrder | include/solver/FlowSorting/LowPeriodFlowsFirst.h:17-30 | the comparator is irreflexive, asymmetric, transitive, and total on flows with distinct ids |
| FlowSorting.NextServed | include/solver/FlowSorting/LowPeriodFlowsFirst.h:17-30 | the top of the queue: no other flow ranks above it |
| FlowSorting.NextServedHasSmallestPeriod | include/solver/FlowSorting/LowPeriodFlowsFirst.h:21-24 | the flow served next has the smallest period |
| Graph.Use | include/graph/GraphStructOperations.h:10-13 | the configuration id becomes the last user of the queue; the queue's id, destination and end-device flag are kept |
| Graph.Unuse | include/graph/GraphStructOperations.h:15-18 | std::erase: the former user no longer uses the queue, every other user is kept as often as before |
| Graph.WithoutMembers | include/graph/GraphStructOperations.h:15-18 | erasing a set of ids keeps exactly the other elements, each with its multiplicity |
| Graph.UnuseUndoesUse | include/graph/GraphStructOperations.h:10-18 | unuse undoes use of a configuration that did not use the queue before |
| Graph.NewQueues | src/graph/MultiLayeredGraph.cpp:37-44 | one queue per neighbour, numbered on from the current queue count, towards that neighbour, marked end device iff there is a single neighbour |
| Graph.AppendQueues | src/graph/MultiLayeredGraph.cpp:39-44 | the loop appends exactly NewQueues to the edge vector |
| Graph.CsrAppend | src/graph/MultiLayeredGraph.cpp:32-35 | appending an offset and the new queues keeps the offsets ascending and gives the new device exactly its queues |
| Graph.CsrAppendKeeps | src/graph/MultiLayeredGraph.cpp:47-54 | every earlier device keeps its CSR slice after a device is appended |
| Graph.MultiLayeredGraph.constructor | src/graph/MultiLayeredGraph.cpp:6-9 | a new graph has no device, no queue, no flow, no configuration and starts the configuration counter at 0 |
| Graph.MultiLayeredGraph.EgressQueuesOf | src/graph/MultiLayeredGraph.cpp:47-54 | the slice of device d has offsets[d+1] - offsets[d] queues |
| Graph.MultiLayeredGraph.OffsetsBounded | src/graph/MultiLayeredGraph.cpp:47-54 | in a valid graph each device's slice lies inside the edge vector |
| Graph.MultiLayeredGraph.InsertNetworkDevice | src/graph/MultiLayeredGraph.cpp:32-45 | one more device whose queues are NewQueues, earlier devices, flows and configurations unchanged, graph stays valid |
| Graph.MultiLayeredGraph.AddFlow | src/graph/MultiLayeredGraph.cpp:72-75 | the flow is inserted or overwrites the one with the same id; nothing else changes |
| Graph.MultiLayeredGraph.InsertConfiguration | src/graph/MultiLayeredGraph.cpp:116-124 | the id is the counter value, never handed out before, and the counter moves on by one; the configuration is stored under it |
| Graph.MultiLayeredGraph.RemoveFlow | src/graph/MultiLayeredGraph.cpp:77-90 | an unknown id changes nothing; otherwise the flow and its configurations are erased and every queue drops exactly those configurations from its users |
| Graph.UnlinkConfigs | src/graph/MultiLayeredGraph.cpp:83-88 | each queue loses exactly the removed configurations whose path passes over it |
| Graph.UnuseAlong | src/graph/MultiLayeredGraph.cpp:84-86 | the queues on the path stop listing the configuration, the others are unchanged |
| Graph.UseAlong | include/graph/GraphStructOperations.h:38-41 | every queue gets the configuration appended once per visit of the path, the others are unchanged |
| Graph.UsedAlong | include/graph/GraphStructOperations.h:38-41 | a queue on the path is used by the configuration, a queue off the path is unchanged |
| Graph.LinkConfiguration | include/graph/GraphStructOperations.h:27-42 | a fresh configuration stored, appended to the flow's list and to each queue's users once per visit of its path |
| Graph.FlowsOf | include/graph/GraphStructOperations.h:44-51 | a flow is in the result iff one of the queue's users is a configuration of it |
| Graph.Position | src/solver/scheduler/Hermes.cpp:169 | std::find: the first position of the queue on the path |
| FirstFit.Least | src/solver/scheduler/FirstFit.cpp:43 | the least element of a non-empty id set: a member no larger than any other |
| FirstFit.AscendingSorts | src/solver/scheduler/FirstFit.cpp:40-43 | the sorted flow list holds exactly the set's ids, each larger than the one before |
| FirstFit.IncreasingUnique | src/solver/scheduler/FirstFit.cpp:43 | two increasing lists with the same ids are equal, so the sorted list does not depend on the hash set's iteration order |
| FirstFit.SortedIds | src/solver/scheduler/FirstFit.cpp:40-43 | copying the set in any order and sorting yields Ascending of the set |
| FirstFit.Attempt | src/solver/scheduler/FirstFit.cpp:47-51 | ASAP with the flow's first configuration keeps one free and one reserved list per queue |
| FirstFit.AddAll | src/solver/scheduler/FirstFit.cpp:45-54 | trying the flows in list order keeps one list of each kind per queue |
| FirstFit.AddAllMembers | src/solver/scheduler/FirstFit.cpp:51-53 | at most one pair per flow tried, each for a tried flow with its first configuration |
| FirstFit.AddAllIncreasing | src/solver/scheduler/FirstFit.cpp:43-53 | flows tried in ascending id order are recorded in strictly ascending id order |
| FirstFit.AddAllComplete | src/solver/scheduler/FirstFit.cpp:45-53 | when every flow was recorded, the i-th pair is the i-th flow tried |
| FirstFit.AddAllKeepsTiles | src/solver/scheduler/FirstFit.cpp:45-54 | with frames of at least one tick, add_flows keeps every queue's free and reserved slots tiling the hyper-cycle |
| FirstFit.AddFlowSet | src/solver/scheduler/FirstFit.cpp:37-55 | add_flows over a set keeps one list of each kind per queue |
| FirstFit.AddFlowSetPairs | src/solver/scheduler/FirstFit.cpp:37-55 | at most one pair per flow of the set, each with its first configuration; all of them in ascending id order exactly when every flow was placed |
| FirstFit.SolveAllActiveOrNothing | src/solver/scheduler/FirstFit.cpp:22-34 | a non-empty solution lists every active flow first in ascending id order, then only required flows, each with its first configuration |
| FirstFit.AddFlows | src/solver/scheduler/FirstFit.cpp:37-55 | the solution grows by exactly the pairs of AddFlowSet and the lists become its state; the lists stay consistent |
| FirstFit.PlaceInOrder | src/solver/scheduler/FirstFit.cpp:45-54 | the loop over the sorted ids computes AddAll: the added pairs and the new list state |
| FirstFit.AddOne | src/solver/scheduler/FirstFit.cpp:47-53 | one round: the pair exactly when ASAP succeeded, and the list state ASAP leaves |
| FirstFit.Solve | src/solver/scheduler/FirstFit.cpp:15-35 | the result and the list state are SolveResult: empty if an active flow failed, otherwise active then required pairs; the lists stay consistent |
| Edf.EarliestIsTop | src/solver/scheduler/EarliestDeadlineFirst.cpp:114-121 | the top of the time list is a queued port with the smallest time, a tie going to the lower port id; the list is empty iff no port is queued |
| Edf.Prefer | src/solver/scheduler/EarliestDeadlineFirst.cpp:146-160 | the reduction lambda returns one of its operands, and that one ranks before (or ties with) both |
| Edf.ReduceBest | src/solver/scheduler/EarliestDeadlineFirst.cpp:143-160 | std::reduce yields the seed or an inbox frame, ranking before the seed and every frame of the inbox |
| Edf.ChooseIsEdf | src/solver/scheduler/EarliestDeadlineFirst.cpp:143-160 | with frames due within the hyper-cycle the sentinel never wins: the chosen frame is in the inbox and ranks first (an arrived frame by deadline, period, configuration id) |
| Edf.Erase | src/solver/scheduler/EarliestDeadlineFirst.cpp:164-168 | std::erase_if keeps exactly the frames not of the chosen configuration and arrival time |
| Edf.ForwardOk | src/solver/scheduler/EarliestDeadlineFirst.cpp:178-190 | a frame forwarded before its deadline waits at the next hop of its own path, still ahead of its deadline |
| Edf.StepKeeps | src/solver/scheduler/EarliestDeadlineFirst.cpp:135-213 | one round keeps every waiting frame on its path and ahead of its deadline; a reservation is for an existing queue and starts at or after the frame's arrival |
| Edf.EraseWeight | src/solver/scheduler/EarliestDeadlineFirst.cpp:164-168 | erasing never adds weight and removes at least the chosen frame's |
| Edf.SendDecreases | src/solver/scheduler/EarliestDeadlineFirst.cpp:162-203 | a send lowers the termination measure of the event loop |
| Edf.StepDecreases | src/solver/scheduler/EarliestDeadlineFirst.cpp:135-213 | every round that goes on lowers the measure, so the event loop ends |
| Edf.Run | src/solver/scheduler/EarliestDeadlineFirst.cpp:135-216 | every reservation of the loop is for an existing queue and starts at or after its frame's arrival |
| Edf.IdleRunSucceeds | src/solver/scheduler/EarliestDeadlineFirst.cpp:208-213 | with every inbox empty the ports tick to the end of the hyper-cycle and nothing fails or is reserved |
| Edf.StepGone | src/solver/scheduler/EarliestDeadlineFirst.cpp:135-213 | a port leaves the time list only with an empty inbox once every queued time has reached the hyper-cycle (least time popped first); a frame forwarded to such a port would miss its deadline, so every round keeps this |
| Edf.Final | src/solver/scheduler/EarliestDeadlineFirst.cpp:135-216 | the state the loop stops in keeps every waiting frame on its path and ahead of its deadline |
| Edf.SuccessEmpties | src/solver/scheduler/EarliestDeadlineFirst.cpp:135-216 | a loop that ends without a failed flow ends with every port out of the time list and every inbox empty: every frame was sent |
| Edf.LeavesOnTime | src/solver/scheduler/EarliestDeadlineFirst.cpp:153-201 | a frame leaves an inbox only by the round's send from that port: a reservation on that port for a frame of its configuration and arrival time, starting no earlier than that arrival, reaching the next hop before the deadline or delivered by it on the last hop |
| Edf.SimulationEmpties | src/solver/scheduler/EarliestDeadlineFirst.cpp:99-216 | simulateEdfPlacement returns nullopt only when every seeded frame of the hyper-cycle has left every inbox it entered |
| Edf.SeedFrames | src/solver/scheduler/EarliestDeadlineFirst.cpp:130-132 | hc / period frames per flow |
| Edf.SeedInbox | src/solver/scheduler/EarliestDeadlineFirst.cpp:123-133 | seeding keeps one inbox per egress queue |
| Edf.SeedInboxOk | src/solver/scheduler/EarliestDeadlineFirst.cpp:123-133 | every seeded frame waits at the first queue of its path and is due within the hyper-cycle |
| Edf.Seeded | src/solver/scheduler/EarliestDeadlineFirst.cpp:102-133 | the seeded simulation state satisfies the loop invariant |
| Edf.EmptyInputSucceeds | src/solver/scheduler/EarliestDeadlineFirst.cpp:99-217 | simulating no pairs never fails and reserves nothing |
| Edf.ClearedState | src/solver/UtilizationList.cpp:274-287 | clear leaves one free, one reserved and one arrival list per link |
| Edf.ApplyAll | src/solver/scheduler/EarliestDeadlineFirst.cpp:199-201 | the reserveSlot calls keep the number of lists of each kind |
| Edf.ApplyAllRecords | src/solver/scheduler/EarliestDeadlineFirst.cpp:199-201 | every transmission ends up on its queue's reserved and arrival lists, in the order sent |
| Edf.IncrementalDrawsFrom | src/solver/scheduler/EarliestDeadlineFirst.cpp:86-94 | the additions keep the starting pairs in front and take every further pair from the missing ones |
| Edf.IncrementalFeasible | src/solver/scheduler/EarliestDeadlineFirst.cpp:86-94 | starting from pairs that simulate, the result simulates without a missed deadline |
| Edf.PlanFeasible | src/solver/scheduler/EarliestDeadlineFirst.cpp:79-96 | solve's result always simulates without a missed deadline (so, by SimulationEmpties, every frame of it is sent), and the admitted pairs stay in front whenever they simulate |
| Edf.LastTried | src/solver/scheduler/EarliestDeadlineFirst.cpp:86-94 | the pairs the incremental loop simulates last are valid input and end with the last missing pair |
| Edf.IncrementalStep | src/solver/scheduler/EarliestDeadlineFirst.cpp:86-94 | one round of the additions: the first missing pair is kept exactly when the pairs with it simulate |
| Edf.LastTriedAgrees | src/solver/scheduler/EarliestDeadlineFirst.cpp:86-94 | the additions end with the last simulated pairs when that simulation succeeded, and with them minus the last pair when it failed |
| Edf.PlanTried | src/solver/scheduler/EarliestDeadlineFirst.cpp:79-94 | the pairs solve simulates last are valid input |
| Edf.PlanTriedAgrees | src/solver/scheduler/EarliestDeadlineFirst.cpp:79-94 | solve's result equals the pairs it simulated last exactly when that simulation succeeded; otherwise it lacks their last pair, whose reservations the list still holds |
| Edf.FrontPairs | src/solver/scheduler/EarliestDeadlineFirst.cpp:32-35 | one pair per flow, each with its first configuration, inside the network |
| Edf.Split | src/solver/scheduler/EarliestDeadlineFirst.cpp:51-76 | every required flow goes to exactly one side: admitted flows to the input, the others to the missing list |
| Edf.FindHop | src/solver/scheduler/EarliestDeadlineFirst.cpp:174-177 | the walk from the path's front stops at the first occurrence of the port |
| Edf.AddSeeds | src/solver/scheduler/EarliestDeadlineFirst.cpp:130-132 | the inbox of the first port gains exactly the flow's frames, the other inboxes are unchanged |
| Edf.RunUnfolds | src/solver/scheduler/EarliestDeadlineFirst.cpp:135-214 | the event loop is one round followed by the rest of the run |
| Edf.ApplyStep | src/solver/scheduler/EarliestDeadlineFirst.cpp:199-201 | one more reservation is one more reserveSlot call |
| Edf.EarliestDeadlineFirst.constructor | src/solver/scheduler/EarliestDeadlineFirst.cpp:7-11 | the hyper-cycle of the graph's flows, the first solve skipped |
| Edf.EarliestDeadlineFirst.ServePort | src/solver/scheduler/EarliestDeadlineFirst.cpp:136-213 | one round is StepSim, and a send reserves exactly its slot |
| Edf.EarliestDeadlineFirst.SendFrame | src/solver/scheduler/EarliestDeadlineFirst.cpp:162-203 | the send branch is Send, and a send that goes on reserves exactly its slot |
| Edf.EarliestDeadlineFirst.SeedSim | src/solver/scheduler/EarliestDeadlineFirst.cpp:105-133 | the seeding loops build Seeded |
| Edf.EarliestDeadlineFirst.Play | src/solver/scheduler/EarliestDeadlineFirst.cpp:135-216 | the loop returns the flow Run reports as failed, and the list gains exactly Run's reservations |
| Edf.EarliestDeadlineFirst.Simulate | src/solver/scheduler/EarliestDeadlineFirst.cpp:99-217 | the failed flow of Simulation, and the cleared list with exactly the simulation's reservations |
| Edf.EarliestDeadlineFirst.FrontOf | src/solver/scheduler/EarliestDeadlineFirst.cpp:32-35 | the active flows with their first configurations, in the set's order |
| Edf.EarliestDeadlineFirst.SplitRequired | src/solver/scheduler/EarliestDeadlineFirst.cpp:42-76 | the required flows in ascending id order, split as Split says |
| Edf.EarliestDeadlineFirst.AddOneByOne | src/solver/scheduler/EarliestDeadlineFirst.cpp:86-94 | the incremental loop computes Incremental; the list is left with the reservations of the last simulation (LastTried), or untouched when nothing is missing |
| Edf.EarliestDeadlineFirst.TryPair | src/solver/scheduler/EarliestDeadlineFirst.cpp:87-93 | one round: the pair is kept exactly when the pairs with it simulate, and the list holds that simulation's reservations |
| Edf.EarliestDeadlineFirst.Schedule | src/solver/scheduler/EarliestDeadlineFirst.cpp:26-96 | the result is Plan of the prefiltered pairs, and it simulates without a missed deadline; the list holds the reservations of the last simulation (PlanTried) |
| Edf.EarliestDeadlineFirst.Solve | src/solver/scheduler/EarliestDeadlineFirst.cpp:13-97 | every second call (starting with the first) returns nothing and leaves the list; otherwise the hyper-cycle is recomputed, the result is Plan, which simulates without a missed deadline, and the list holds the reservations of the last simulation |
| HermesScheduler.LastUnphased | src/solver/scheduler/Hermes.cpp:103-112 | the search from the path's end finds nothing iff every queue of the path has a phase, otherwise a position whose queue has phase 0 |
| HermesScheduler.LastUnphasedPrefix | src/solver/scheduler/Hermes.cpp:103-108 | one step of the reversed search: the queue before position i has a phase, or it is the one found |
| HermesScheduler.NextSegmentOnPath | src/solver/scheduler/Hermes.cpp:100-123 | no segment iff every queue of the path has a phase; otherwise a queue of the path without a phase, or the one after it when that one already has phase phi |
| HermesScheduler.Assign | src/solver/scheduler/Hermes.cpp:50-78 | one flow's turn keeps one phase per queue |
| HermesScheduler.AssignOnlyUndelayed | src/solver/scheduler/Hermes.cpp:53-78 | a turn only gives phase phi to the proposed segment, only when no configuration through it proposes another one, and never changes a phase already given |
| HermesScheduler.Round | src/solver/scheduler/Hermes.cpp:49-79 | a round keeps one phase per queue |
| HermesScheduler.RoundKeepsPhases | src/solver/scheduler/Hermes.cpp:49-79 | a round leaves every phase as it was or sets an unphased queue to phi |
| HermesScheduler.PhaseLoopAssignsAll | src/solver/scheduler/Hermes.cpp:43-87 | a returned assignment gives every queue a phase between 1 and 1000 and keeps the phases it started with |
| HermesScheduler.InitialPhases | src/solver/scheduler/Hermes.cpp:35-41 | phase 1 exactly for the queues no configuration uses, 0 for the others |
| HermesScheduler.FlowPaths | src/solver/scheduler/Hermes.cpp:49-51 | the path of each flow's first configuration, in the flow map's order |
| HermesScheduler.DivPhasesAssignsAll | src/solver/scheduler/Hermes.cpp:32-98 | every queue gets a phase in 1..1000 and the unused queues keep phase 1 |
| HermesScheduler.ReserveKeepsSizeT | src/solver/UtilizationList.cpp:224-261 | reserveSlot with a request inside size_t keeps every value of the list inside size_t |
| HermesScheduler.InPeriod | src/solver/scheduler/Hermes.cpp:177-183 | the slot found is one of the flow's slots starting within the frame's period; none iff no slot starts there |
| HermesScheduler.PrevOffset | src/solver/scheduler/Hermes.cpp:171-186 | prev_offset, computed in size_t arithmetic, stays a size_t value |
| HermesScheduler.LatestOffset | src/solver/scheduler/Hermes.cpp:166-188 | latest_offset as written, with size_t wrap-around, stays a size_t value |
| HermesScheduler.LatestOffsetWraps | src/solver/scheduler/Hermes.cpp:182-188 | a next-hop slot at tick 10, 8 ticks of transmission and deadline 100: the offset wraps to 2^64 - 3 and the frame is placed at 92, after its deadline |
| HermesScheduler.CheckedLatest | src/solver/scheduler/Hermes.cpp:171-188 | an offset, when there is one, leaves room for the propagation and transmission delay before the deadline |
| HermesScheduler.CheckedLatestMeetsNextHop | src/solver/scheduler/Hermes.cpp:171-189 | a frame placed by the checked offset arrives by its deadline and, before the last hop, is processed before its slot on the next queue |
| HermesScheduler.FrameStep | src/solver/scheduler/Hermes.cpp:167-193 | one frame's placement keeps the list inside size_t, one list of each kind per queue |
| HermesScheduler.FramesFrom | src/solver/scheduler/Hermes.cpp:166-193 | the frame loop keeps the list inside size_t, one list of each kind per queue |
| HermesScheduler.ConfigsFrom | src/solver/scheduler/Hermes.cpp:161-194 | the configuration loop keeps the list inside size_t |
| HermesScheduler.ConfigsStep | src/solver/scheduler/Hermes.cpp:161-194 | one turn of the configuration loop: the frames of one configuration, then the rest if they succeeded |
| HermesScheduler.LinksFrom | src/solver/scheduler/Hermes.cpp:151-195 | the loop over the queues of a phase keeps the list inside size_t |
| HermesScheduler.PhasesFrom | src/solver/scheduler/Hermes.cpp:148-196 | the loop over the phases keeps the list inside size_t |
| HermesScheduler.MaxPhase | src/solver/scheduler/Hermes.cpp:147 | max_element: a phase of some queue, no smaller than any queue's phase |
| HermesScheduler.AllPairs | src/solver/scheduler/Hermes.cpp:198-200 | one (flow, configuration) pair per configuration, in the map's order |
| HermesScheduler.AllPairsOnePerConfig | src/solver/scheduler/Hermes.cpp:198-200 | every configuration of the graph appears in the solution exactly once, with its own flow |
| HermesScheduler.FrameStepTiles | src/solver/scheduler/Hermes.cpp:189 | a frame of at least one tick keeps every queue's free and reserved slots tiling the hyper-cycle |
| HermesScheduler.PhasesFromTiles | src/solver/scheduler/Hermes.cpp:148-196 | the whole schedule keeps every queue tiled, whether it succeeds or stops at a frame it cannot place |
| HermesScheduler.Hermes.constructor | src/solver/scheduler/Hermes.cpp:7-9 | the scheduler works on the given graph |
| HermesScheduler.Hermes.IsDelayed | src/solver/scheduler/Hermes.cpp:60-75 | the any_of loop returns Delayed: some configuration through the segment proposes another segment |
| HermesScheduler.Hermes.PlayRound | src/solver/scheduler/Hermes.cpp:49-79 | the loop over the flows computes Round |
| HermesScheduler.Hermes.DivPhases | src/solver/scheduler/Hermes.cpp:32-98 | the loop computes DivPhasesResult |
| HermesScheduler.Hermes.Schedule | src/solver/scheduler/Hermes.cpp:139-196 | the nested loops compute PhasesFrom over phases 1 to the largest, on the lists; a consistent list stays consistent |
| HermesScheduler.Hermes.CollectPairs | src/solver/scheduler/Hermes.cpp:198-200 | the closing loop computes AllPairs |
| HermesScheduler.Hermes.Solve | src/solver/scheduler/Hermes.cpp:16-30 | no phases: empty and the lists unchanged; otherwise the schedule's state, and every configuration's pair iff it succeeded |
| InputParser.FirstDigit | include/IO/InputParser.h:18 | find_first_of over the digits: none iff the text holds no digit, otherwise the first digit's position |
| InputParser.TokenLength | include/IO/InputParser.h:27-35 | the loop reads every character before the first ':' or ',' or white space, and stops there |
| InputParser.TokenLengthIs | include/IO/InputParser.h:27-35 | the stopping point of the loop is unique |
| InputParser.Accumulate | include/IO/InputParser.h:32-33 | node * 10 + (c - '0') in size_t arithmetic: the value stays below 2^64 |
| InputParser.ExtractNextInteger | include/IO/InputParser.h:16-39 | the extraction computes Extract: the number read and the view left behind |
| InputParser.SkipToDigit | include/IO/InputParser.h:18-21 | the view starts at the first digit, or is unchanged when there is none |
| InputParser.ReadDigits | include/IO/InputParser.h:23-36 | the loop reads TokenLength characters and folds exactly those into the number |
| InputParser.DigitChar | include/IO/InputParser.h:33 | a digit character whose value c - '0' is the digit |
| InputParser.Decimal | include/IO/InputParser.h:27-35 | the decimal notation of a number is a non-empty run of digits |
| InputParser.AccumulateDecimal | include/IO/InputParser.h:27-35 | the digit loop reads a decimal numeral back as the number it denotes, when that fits in size_t |
| InputParser.ExtractReadsDecimal | include/IO/InputParser.h:16-39 | a numeral after text without digits and before a delimiter or the end is read back exactly, and the view is left at the delimiter |
| InputParser.DigitsEndAtDelimiter | include/IO/InputParser.h:27-36 | the loop stops at the delimiter after the digits |
| InputParser.SkipsJunk | include/IO/InputParser.h:18-21 | remove_prefix drops exactly the text before the first digit |
| InputParser.Grow | include/IO/InputParser.h:69-71 | resize to at least n: the old lists are kept and the new ones are empty |
| InputParser.Link | include/IO/InputParser.h:72-77 | b joins a's list unless it is already there; no other list changes |
| InputParser.LinkKeepsNoDuplicates | include/IO/InputParser.h:72-77 | the guarded append keeps every list free of duplicates |
| InputParser.AddEdge | include/IO/InputParser.h:69-77 | the list spans both ids, and each becomes the other's neighbour and nothing else changes |
| InputParser.AddEdgeKeepsShape | include/IO/InputParser.h:69-77 | an edge keeps the adjacency symmetric and free of duplicates |
| InputParser.AddLine | include/IO/InputParser.h:59-78 | a line never shrinks the adjacency list |
| InputParser.EdgeList | include/IO/InputParser.h:60-66 | at most one edge per line: none for a comment line |
| InputParser.AdjacencyStep | include/IO/InputParser.h:59-78 | one more line adds its edge, or nothing for a comment |
| InputParser.BuildShape | include/IO/InputParser.h:69-77 | the adjacency built from any edges is symmetric and free of duplicates |
| InputParser.BuildIsEdgeList | include/IO/InputParser.h:69-77 | b is a neighbour of a iff an edge joins them, and every id on an edge has a list |
| InputParser.BuildSpan | include/IO/InputParser.h:69-71 | the list spans the ids up to the largest on an edge and no further |
| InputParser.Destinations | src/graph/MultiLayeredGraph.cpp:39-44 | the neighbour each egress queue leads to |
| InputParser.ParseNetworkGraph | include/IO/InputParser.h:55-87 | a fresh valid graph with one device per id 0..max id, each with one queue per neighbour in ascending order, and no flow or configuration |
| InputParser.ReadLines | include/IO/InputParser.h:59-78 | the getline loop computes Adjacency of the lines |
| InputParser.ReadLine | include/IO/InputParser.h:60-77 | the loop body computes AddLine |
| InputParser.Connect | include/IO/InputParser.h:69-77 | the resize and the two guarded appends compute AddEdge |
| InputParser.AddDevice | include/IO/InputParser.h:82-85 | insertNetworkDevice with the sorted list: the new device leads to its neighbours in ascending order and earlier devices keep theirs |
| Routing.RowInside | src/graph/MultiLayeredGraph.cpp:47-54 | the queues of a device lie inside the queue array |
| Routing.WeightAtLeastHops | include/routing/RoutingUtil.h:53-56 | with every weight at least 1, a path weighs at least its hop count |
| Routing.UnitWeight | include/routing/RoutingUtil.h:53-56 | with no increased weights a path weighs its hop count |
| Routing.TopExists | include/routing/RoutingUtil.h:37 | priority_queue::top: a non-empty queue has an entry of least distance |
| Routing.Dijkstra | include/routing/RoutingUtil.h:13-88 | a path from source to destination no heavier than any other and lighter than the sentinel distance; none exactly when every path weighs at least the sentinel; the empty path when source is destination |
| Routing.Explore | include/routing/RoutingUtil.h:21-71 | the main loop ends with the queue empty and the search invariant holding |
| Routing.Visit | include/routing/RoutingUtil.h:37-70 | one iteration keeps the search invariant and either shrinks the queue or checks one more device |
| Routing.ExpandTop | include/routing/RoutingUtil.h:50-70 | expanding an unchecked top entry keeps the invariant and checks one more device |
| Routing.PopKeeps | include/routing/RoutingUtil.h:40-48 | dropping a useless or already expanded entry keeps the invariant |
| Routing.TopIsFresh | include/routing/RoutingUtil.h:37-48 | an entry popped for expansion carries its device's current distance |
| Routing.Expand | include/routing/RoutingUtil.h:51-69 | after the loop every out-link of the device has been relaxed |
| Routing.Relax | include/routing/RoutingUtil.h:52-68 | a shorter way to the link's destination is recorded with its link and predecessor, and queued |
| Routing.ExpandKeepsChecked | include/routing/RoutingUtil.h:51-70 | expanded devices keep their distance through a later expansion |
| Routing.ExpandKeepsShape | include/routing/RoutingUtil.h:70 | marking the device as checked keeps the distances and links consistent |
| Routing.ExpandKeepsOrder | include/routing/RoutingUtil.h:51-70 | after an expansion, every reached device is queued or checked, checked devices are relaxed, and none is farther than a queued entry |
| Routing.NoShortcut | include/routing/RoutingUtil.h:35-71 | once the queue is empty, no path from any device reaches the destination more cheaply than the distances allow |
| Routing.ExtractPath | include/routing/RoutingUtil.h:73-87 | walking the predecessor links back and reversing yields a lightest path, or fails exactly when no path is lighter than the sentinel |
| DijkstraOverlap.PenalizedCounts | src/routing/DijkstraOverlap.cpp:25-33 | each use of a queue on the path adds 2 to its weight (from 1 when it had none); other queues keep theirs |
| DijkstraOverlap.PenalizedKeys | src/routing/DijkstraOverlap.cpp:25-33 | the weight map gains exactly the queues of the path |
| DijkstraOverlap.PenalizedPositive | src/routing/DijkstraOverlap.cpp:25-33 | penalising keeps every weight at least 1 |
| DijkstraOverlap.Penalize | src/routing/DijkstraOverlap.cpp:25-33 | the loop computes Penalized |
| DijkstraOverlap.FindRoutes | src/routing/DijkstraOverlap.cpp:13-42 | at most the requested number of distinct paths from source to destination, the first a fewest-hop path; fewer only after DUPLICATE_PATH_LIMIT duplicates; a failed search whenever a path is requested between unconnected devices, and only when a path is requested between two different devices |
| KShortest.PathSnoc | include/routing/RoutingUtil.h:77-85 | a path extended by an out-link of its end is a path |
| KShortest.PathAppend | src/routing/KShortest.cpp:63 | the root path followed by a spur path from the spur node is a path |
| KShortest.TraceOut | src/routing/KShortest.cpp:48-52 | hop j of a path leaves the device the walk has reached, and the next hop leaves where hop j arrives |
| KShortest.SameUpTo | src/routing/KShortest.cpp:35-41 | the compare loop answers same iff the path agrees with the root up to the shorter of the two |
| KShortest.SharesRootCases | src/routing/KShortest.cpp:35-43 | a path sharing the root either lies inside it or continues it |
| KShortest.BlockingFails | src/routing/KShortest.cpp:33-45 | the loop throws exactly when an accepted path sharing the root ends inside it (r.at(end_index) out of range) |
| KShortest.BlockingAdds | src/routing/KShortest.cpp:33-45 | otherwise exactly the next links of the paths sharing the root are added, with LARGE_NUMBER |
| KShortest.BlockingFailStays | src/routing/KShortest.cpp:33-45 | once the loop has thrown on a prefix of the list it throws on the whole list |
| KShortest.BlockRepeats | src/routing/KShortest.cpp:33-45 | the loop computes Blocking |
| KShortest.RemoveNode | src/routing/KShortest.cpp:94-101 | exactly the device's egress queues become LARGE_NUMBER heavy; every other weight is kept |
| KShortest.LeavesRootNext | src/routing/KShortest.cpp:48-52 | one more root hop removes the links of one more device |
| KShortest.RemoveRoot | src/routing/KShortest.cpp:48-52 | exactly the out-links of the devices before the spur node become LARGE_NUMBER heavy |
| KShortest.NotRepeated | src/routing/KShortest.cpp:33-66 | a valid candidate root + spur never repeats an accepted path |
| KShortest.SpurCandidate | src/routing/KShortest.cpp:27-72 | the weights are LARGE_NUMBER on exactly the next links of the accepted paths sharing the root and the out-links of the root's devices; the spur path is a lightest path from the spur node under them; root + spur is appended exactly when no hop of the spur is weighted and it is not yet a candidate, otherwise the list is unchanged; failure when an accepted path ends inside the root; the list stays distinct, disjoint from the accepted paths and made of paths |
| KShortest.SpurPaths | src/routing/KShortest.cpp:23-73 | candidates are only appended, never removed; they stay distinct paths disjoint from the accepted ones; an empty previous route adds none |
| KShortest.TakeOut | src/routing/KShortest.cpp:86-87 | moving a candidate to the accepted paths keeps both lists distinct and disjoint |
| KShortest.Shortest | src/routing/KShortest.cpp:83-86 | the index of a candidate no longer than any other |
| KShortest.TakeShortest | src/routing/KShortest.cpp:82-87 | a shortest candidate is moved to the end of the accepted paths; both lists stay distinct, disjoint and made of paths |
| KShortest.FindRoutes | src/routing/KShortest.cpp:10-92 | at least one and at most the requested number of distinct paths (one when fewer than one was asked), the first a fewest-hop path; failure when the devices are not connected; [[]] when source is destination |
| NetworkGraph.RowStartIsProduct | support_tools/create_network_graph.py:171-178 | the counter at the start of a row is row * b |
| NetworkGraph.MeshLinkCount | support_tools/create_network_graph.py:171-178 | an a x b mesh gets a*(b-1) horizontal and b*(a-1) vertical links, and none when a side is empty |
| NetworkGraph.GridIsMesh | support_tools/create_network_graph.py:171-178 | the grid loop links exactly the mesh links (k to k+1 unless k ends its row, k to k+b unless k is in the last row), each once, from the lower to the higher switch id |
| NetworkGraph.MeshLinkInGrid | support_tools/create_network_graph.py:174-177 | every mesh link is added by the grid loop |
| NetworkGraph.RowLinksComplete | support_tools/create_network_graph.py:174-177 | each switch of a row gets its right and lower link when they exist |
| NetworkGraph.GridLinksComplete | support_tools/create_network_graph.py:172-178 | each switch of the grid gets its right and lower link when they exist |
| NetworkGraph.GridLinksMesh | support_tools/create_network_graph.py:172-178 | every link of the grid loop is a mesh link |
| NetworkGraph.GridLinksBounds | support_tools/create_network_graph.py:172-178 | the grid's links leave switches of the rows done so far, upwards, in strictly increasing order |
| NetworkGraph.SwitchGrid | support_tools/create_network_graph.py:171-178 | the nested loop computes GridLinks |
| NetworkGraph.SwitchRow | support_tools/create_network_graph.py:173-178 | the inner loop adds the links of one row and moves the counter to the next row's start |
| NetworkGraph.AttachPerSwitch | support_tools/create_network_graph.py:180-184 | device ids run on from the switch count, d per switch, device slot i of switch s linked to s, one link each |
| NetworkGraph.MeshGraph | support_tools/create_network_graph.py:160-185 | the grid links, then a*b*d device links as PerSwitch says |
| NetworkGraph.EvenMeshGraph | support_tools/create_network_graph.py:150-157 | a square mesh with d devices on every switch |
| NetworkGraph.EvenRing | support_tools/create_network_graph.py:95-100 | the circulant graph, then device n+i on switch (n+i) mod n for every i < n*x |
| NetworkGraph.EvenRingShares | support_tools/create_network_graph.py:97-99 | every switch gets exactly x of the devices, at distinct positions, and every device has one |
| NetworkGraph.EvenRandom | support_tools/create_network_graph.py:62-68 | the random switch graph, then device n+s on every switch s |
| NetworkGraph.AttachRandomly | support_tools/create_network_graph.py:48-50 | device i+n on a drawn switch below n for every i; randbelow(0) raises iff there are no switches and some device |
| NetworkGraph.LeafSwitches | support_tools/create_network_graph.py:112 | the comprehension yields LeavesOf |
| NetworkGraph.LeavesOfShape | support_tools/create_network_graph.py:112 | the leaf list holds exactly the switches of degree 1, each once, ascending |
| NetworkGraph.AttachToLeaves | support_tools/create_network_graph.py:111-121 | one device per leaf in leaf order, then further devices on drawn leaves; random.choice of no leaves raises; the warning iff there are more leaves than devices |
| ScenarioNetwork.Split | support_tools/create_scenario.py:129 | str.split yields at least one piece, none holding the separator |
| ScenarioNetwork.JoinSplit | support_tools/create_scenario.py:129 | joining the pieces back with the separator gives the original text |
| ScenarioNetwork.SplitJoin | support_tools/create_scenario.py:129 | pieces free of the separator, joined with it, split back into the same pieces |
| ScenarioNetwork.Strip | support_tools/create_scenario.py:129 | the text holds no carriage return or line feed afterwards, and is no longer |
| ScenarioNetwork.StripKeeps | support_tools/create_scenario.py:129 | text without carriage returns and line feeds is kept as it is |
| ScenarioNetwork.ParseIntText | support_tools/create_scenario.py:131-132 | int() reads back what str() writes, for every integer |
| ScenarioNetwork.ReadLine | support_tools/create_scenario.py:122-132 | a line is skipped iff it is a comment or shorter than 3 characters; a link comes only from a longer, non-comment line |
| ScenarioNetwork.ReadsWrittenLink | support_tools/create_scenario.py:122-132 | the line create_network_graph.py writes for an edge (support_tools/create_network_graph.py:212-213) is read back as that edge |
| ScenarioNetwork.KeyOrderShape | support_tools/create_scenario.py:134-137 | the dictionary's keys are exactly the link endpoints, each once |
| ScenarioNetwork.NeighboursSymmetric | support_tools/create_scenario.py:138-139 | y is listed at x exactly as often as x is listed at y |
| ScenarioNetwork.LinksNonePersists | support_tools/create_scenario.py:131-132 | a malformed line makes the whole load fail, whatever follows |
| ScenarioNetwork.LoadNetwork | support_tools/create_scenario.py:119-139 | fails iff some line is malformed; otherwise the key order and the dictionary built from the file's links |
| ScenarioNetwork.AddLink | support_tools/create_scenario.py:134-139 | one link: both ends become keys (in order, when new) and each lists the other |
| ScenarioNetwork.NeighboursStep | support_tools/create_scenario.py:138-139 | a new link appends its other end to each end's list |
| ScenarioNetwork.NeighboursAbsent | support_tools/create_scenario.py:134-137 | a node that is not yet a key has no neighbours |
| ScenarioNetwork.OneNeighbourIsOneElement | support_tools/create_scenario.py:143 | the test len(set(value)) == 1 holds iff every neighbour is the same node |
| ScenarioNetwork.EndKeys | support_tools/create_scenario.py:141-144 | the order-preserving filter of the keys: exactly the keys whose neighbour list holds one distinct node, no more of them than keys |
| ScenarioNetwork.EndKeysDistinct | support_tools/create_scenario.py:141-144 | distinct dictionary keys give distinct end devices |
| ScenarioNetwork.EndDevices | support_tools/create_scenario.py:141-144 | the loop returns the filter EndKeys of the keys, in key order: exactly the keys whose neighbour list holds one distinct node |
| ScenarioNetwork.EndDevicesOfLinks | support_tools/create_scenario.py:141-144 | a link endpoint is an end device iff all its links lead to one and the same node |
| ScenarioNetwork.NeighboursListsOthers | support_tools/create_scenario.py:138-139 | every entry of graph[x] is the other end of a link at x |
| ScenarioNetwork.NeighboursHasOther | support_tools/create_scenario.py:138-139 | the other end of every link at x is listed in graph[x] |
| Scenario.FlowsAppend | support_tools/create_scenario.py:161 | the active flows of appended cluster lists are the flows of each list in turn |
| Scenario.FlowsAround | support_tools/create_scenario.py:67-71 | the active flows are those before cluster i, cluster i, and those after it |
| Scenario.Choices | support_tools/create_scenario.py:18 | the comprehension keeps exactly the configured sizes within the budget |
| Scenario.Others | support_tools/create_scenario.py:27 | the comprehension keeps exactly the end devices other than the hub |
| Scenario.NoOthers | support_tools/create_scenario.py:27 | the hub has no partner iff every listed end device is the hub |
| Scenario.EqualShareTraffic | support_tools/create_scenario.py:43 | in equal-traffic mode every flow sends 125 * equal_traffic bytes per hyper-cycle, whatever its period |
| Scenario.EqualShareWhole | support_tools/create_scenario.py:38-43 | without either diagnostic, the frame size is the whole quotient (125 * equal_traffic) / (hyper_cycle / period) |
| Scenario.PeriodDividesHyperCycle | support_tools/create_scenario.py:99 | with positive periods, lcm(*periods) is a positive multiple of every configured period |
| Scenario.WholeQuotient | support_tools/create_scenario.py:38 | a positive multiple of p leaves no remainder and a positive quotient |
| Scenario.ZeroPeriodNoFrames | support_tools/create_scenario.py:99 | a zero period makes the hyper-cycle 0, so no flow has a positive frame count |
| Scenario.NoHyperCycleWarnings | support_tools/create_scenario.py:37-42 | with positive periods the hyper-cycle diagnostic never fires; only the traffic check can |
| Scenario.ClusterIndex | support_tools/create_scenario.py:79-83 | the first cluster whose running size sum exceeds the drawn number; none iff the number is not below the number of active flows |
| Scenario.ClusterIndexHoldsFlow | support_tools/create_scenario.py:77-83 | the cluster found holds the drawn active flow, so clusters are drawn in proportion to their size and never empty |
| Scenario.ClusterIndexUnique | support_tools/create_scenario.py:79-83 | at most one cluster brackets a drawn number |
| Scenario.Take | support_tools/create_scenario.py:68 | cluster[:max_size] holds min(max_size, len) flows |
| Scenario.TakeDrop | support_tools/create_scenario.py:67-68 | the part removed and the part kept together are the cluster |
| Scenario.RemovedIds | support_tools/create_scenario.py:67-71 | taking flows out of the active clusters takes exactly their ids out |
| Scenario.RemovedOnce | support_tools/create_scenario.py:170-176 | under the bookkeeping no id is removed twice and only issued ids are removed |
| Scenario.RemovalAccounted | support_tools/create_scenario.py:173-176 | moving flows from the active clusters to the removed ones keeps every issued id accounted for once |
| Scenario.AppendCluster | support_tools/create_scenario.py:157-161 | appending a cluster whose ids continue the issued ones keeps every issued id accounted for once |
| Scenario.ScenarioGenerator.constructor | support_tools/create_scenario.py:97-101 | the configuration as read, with the hyper-cycle lcm(*periods), no flow yet and nothing printed |
| Scenario.ScenarioGenerator.Draw | support_tools/create_scenario.py:19 | a draw below the bound, the next one from the random source |
| Scenario.ScenarioGenerator.NextClusterSize | support_tools/create_scenario.py:17-19 | a configured size within the remaining budget; random.choice raises iff none is |
| Scenario.ScenarioGenerator.GenerateCluster | support_tools/create_scenario.py:22-52 | size flows around one hub with consecutive ids and their diagnostics; an exception iff there is no end device or (for a positive size) no partner, period or frame size, or a division by zero |
| Scenario.ScenarioGenerator.GrowOne | support_tools/create_scenario.py:45-51 | appending a freshly drawn flow keeps the partly built cluster well formed |
| Scenario.ScenarioGenerator.NextFlow | support_tools/create_scenario.py:27-50 | one flow with the given id around the hub and its diagnostics; an exception iff no partner, period or frame size, or a division by zero |
| Scenario.ScenarioGenerator.DrawEnds | support_tools/create_scenario.py:27-33 | two different end devices, one of them the hub; none iff the hub has no partner |
| Scenario.ScenarioGenerator.EqualFrameSize | support_tools/create_scenario.py:37-43 | the equal share and the two diagnostics; a division by zero iff the period or the frame count is 0 |
| Scenario.ScenarioGenerator.RandomClusterIndex | support_tools/create_scenario.py:76-83 | randbelow raises for a non-positive size; otherwise a non-empty active cluster, the one holding the drawn flow |
| Scenario.ScenarioGenerator.RemoveRandomCluster | support_tools/create_scenario.py:55-73 | a drawn cluster of at most max_size flows deleted whole, or after RetryLimit redraws its first max_size flows; fails iff there is no active flow |
| Scenario.ScenarioGenerator.Excise | support_tools/create_scenario.py:63-71 | the whole cluster deleted, or its first max_size flows removed and the rest kept; exactly the removed ids leave the active flows |
| Scenario.ScenarioGenerator.RemoveFlows | support_tools/create_scenario.py:170-176 | exactly the configured number of ids removed, all issued earlier, and the bookkeeping kept |
| Scenario.ScenarioGenerator.RemoveOne | support_tools/create_scenario.py:173-176 | one to max_size flows removed, their ids recorded, flow_set_size reduced, bookkeeping kept |
| Scenario.ScenarioGenerator.AddClusters | support_tools/create_scenario.py:179-190 | exactly the configured number of new flows with the next consecutive ids, each joining two different end devices, appended as active clusters |
| Scenario.ScenarioGenerator.AddCluster | support_tools/create_scenario.py:182-190 | one cluster of 1 to budget flows with the next ids, made active, bookkeeping kept |
| Scenario.ScenarioGenerator.Admit | support_tools/create_scenario.py:184-190 | the id counter moves past the cluster and the cluster becomes active, bookkeeping kept |
| Scenario.ScenarioGenerator.CountIds | support_tools/create_scenario.py:184-188 | the per-flow increments advance the id counter by the cluster size |
| Scenario.ScenarioGenerator.Step | support_tools/create_scenario.py:168-194 | one time step: its number, the configured number of removed ids (all issued before), and the configured number of adds with the next ids |
| Scenario.ScenarioGenerator.Run | support_tools/create_scenario.py:146-194 | one step per time (at least the initial one), the initial step adding ids 0..n-1; all adds together carry ids 0..next-1 in order; every removal is of an earlier added flow, and no id is removed twice |
| Scenario.AddsContinue | support_tools/create_scenario.py:166-188 | a step whose ids continue the run's span extends it |
| Scenario.StepsAppend | support_tools/create_scenario.py:192-194 | appending a step extends the run's adds and removes and keeps the per-step properties |

## Left out

- UtilFunctions.HyperCycle: the lcm fold is over size_t in the source and can overflow for large coprime periods; the model computes the exact lcm.
- Edf.EarliestDeadlineFirst.Solve: the prefilter that picks the required flows to simulate with the active ones compares floating-point utilization ratios. The model takes its outcome as the given set `admitted`.
- HermesScheduler.Hermes.Solve: assignFrameUtilization (Hermes.cpp:125-137) sorts each queue's users by a floating-point utilization. That order is the given parameter `used`.
- HermesScheduler.Hermes.Solve: the fallback to the unchecked latest offset of Hermes.cpp:182-188 is replaced by the corrected CheckedLatest (see Findings).
- HermesScheduler.FrameStep: places frames with the corrected CheckedLatest, not with the wrapping size_t offset of Hermes.cpp:182-188 as written (see Findings).
- HermesScheduler.Hermes.Schedule: places frames with the corrected CheckedLatest, not with the wrapping size_t offset of Hermes.cpp:182-188 as written (see Findings).
- Placement.HermesPlacement: requires a free slot that can hold the frame before the latest offset. Without one the source takes max_element of an empty range, which is undefined.
- UtilizationList.NetworkUtilizationList.FreeReservedSlot: freeSlot on an empty free list is undefined in the source. The model inserts the freed interval as the only free slot.
- FlowIntegrity.VerifySchedule: requires the graph's offsets to ascend and every queue to lead to a device of the graph (WiringOk). getEgressQueuesOf indexes the offsets without a bounds check, so on other graphs the source's lookup is undefined; every graph MultiLayeredGraph builds through the parser satisfies it (FlowIntegrity.ParsedGraphLooksUp).
- FlowIntegrity.VerifySchedule: the lookups throw std::out_of_range (getEgressQueue, getFlow) or validationError (not full duplex); the model reports all three as rules (UnknownQueue, UnknownFlow, NotFullDuplex) of a Violation, with the queue and the slot index. The source repeats a queue's lookup for every slot; the lookup depends on the graph alone, so the functions read it from a table (ScheduleVerifier.PortTable) while the methods call it each time.
- FlowIntegrity.CheckFlowIntegrity: an unfinished flow is reported without its id. Which flow the source names depends on hash-map iteration order.
- Bottleneck.BottleneckQueue: rate adds 1 / config in float (infinite for configuration 0) to the queue id; that tie-breaker and the float rounding are not modelled, only the queue id.
- Routing.Dijkstra: distances are unbounded integers, so an int64 overflow of very heavy weights is not modelled. The priority queue is a multiset from which any least entry may be taken, so the contract does not fix which of several equally light paths comes back.
- DijkstraOverlap.FindRoutes: weights are unbounded, so the overflow of a weight raised by 2 many times is not modelled.
- KShortest.FindRoutes: the order of equally long candidates after std::sort is not fixed by the source. The contract does not say which of them is accepted.
- KShortest.FindRoutes: the contract does not claim that the search returns as many routes as the network has (up to the number requested); that completeness of Yen's algorithm is not proved, only each spur step's exact effect (KShortest.SpurCandidate).
- InputParser.Accumulate: text is a sequence of characters, and a character's value is its code point. The source folds the bytes of a std::string through signed char, so the two agree only on ASCII text: a byte of a multi-byte character is negative in the source (and std::isspace on it is undefined).
- ScenarioNetwork.ParseInt: Python's int() also accepts surrounding whitespace, a sign and `_` digit separators. The model reads plain decimal digits, which is what create_network_graph.py writes.
- Scenario.ScenarioGenerator.AddClusters: requires every configured cluster size to be at least 1. With a size of 0 the source's loop can run forever. The same requires is on Scenario.ScenarioGenerator.AddCluster, Scenario.ScenarioGenerator.Step and Scenario.ScenarioGenerator.Run.
- Scenario.ScenarioGenerator.AddCluster: the per-flow `internal_counter` increments are collapsed into one count (CountIds).
- Negative flow counts and amounts in create_scenario.py are treated as 0 additions, as `range` does.
- Frame sizes and `int(hyper_cycle / period)` are computed on floats in create_scenario.py. The model computes frame sizes as exact reals (EqualShare), which can differ from the float result (125/3, say). It computes the frame count by exact integer division, which agrees with the float whenever the period divides the hyper-cycle (PeriodDividesHyperCycle). Negative periods are not modelled.
- Random draws (random.randint, secrets.randbelow, random.choice) are the values of an oracle `roll`. Graphs built by networkx (gnp_random_graph, circulant_graph, random_tree) are inputs.
- The Waxman generator of create_network_graph.py is not modelled. It redraws until networkx reports a connected graph (lines 134-136), so the loop's outcome depends on networkx's random draws. Its retry counter is never incremented, so the bound of 10000 retries has no effect.
- Hash-map iteration orders (flows, configurations, phases, adjacency keys) are given sequences that list the keys.
- A generated graph is the sequence of its add_edge calls, in call order. A networkx graph keeps one edge per node pair and writes its edges in its own adjacency order; the model does not merge a repeated add_edge call and does not reorder the edges.
- InputParser.ParseNetworkGraph: requires every id in the edge list to be below 2^64 - 1 (IdsFit). For the largest size_t id, max + 1 wraps to 0 in the source's resize; that case is not modelled.
- File opening, argparse/configparser, JSON export, the command-line dispatch in the scripts' main functions and console output are not modelled. Printed warnings are returned as values.
- InputParser: parseScenario (JSON reading) is not modelled, only the network file.
- printFreeTimeSlots only prints and is not modelled.
- The floating-point rating classes and sorters are not part of this model: HierarchicalHeuristicScheduling, CelfFlowQueuing, the ScenarioManager, the factories and LowestIdFirst.

## Findings

| source | as written | input that shows it | evidently intended | confidence | as-written member | corrected member |
|---|---|---|---|---|---|---|
| src/util/ScheduleVerifier.cpp:198-218 | the inverse check walks from tick 0, jumping over whichever next free or reserved slot starts at the current tick, and accepts once it reaches the hyper-cycle; it never checks that both lists were used up | hyper-cycle 10, free list [0,9], reserved list [2,3): accepted although tick 2 is both free and reserved | accept exactly when the free and reserved lists tile the hyper-cycle | not executed | ScheduleVerifier.InverseCheckMissesOverlap | ScheduleVerifier.InverseWalkTiles |
| src/solver/scheduler/Hermes.cpp:182-188 | latest offset = min(deadline, next-hop start) - propagation - tx in size_t, which wraps when the next-hop slot starts fewer than tx + 5 ticks into the period | next-hop slot at tick 10, tx 8, deadline 100: the offset wraps and the frame is placed at tick 92, after its slot on the next hop | never place a frame after its slot on the next hop or after its deadline | not executed | HermesScheduler.LatestOffsetWraps | HermesScheduler.CheckedLatestMeetsNextHop |
| include/solver/ConfigurationRating/Configuration/BottleneckHeuristic.h:22-25 | rate returns bottle_neck_capacity->get(); min_element runs over the path, so that is the queue id of the bottleneck link, not its remaining capacity | free lists [], [0,9], [], [] with period 10: path 0,1,3 reports 1 and path 0,2,3 reports 2, though their bottleneck capacities are 10 and 0 | rank a configuration by the remaining capacity of its bottleneck link | not executed | Bottleneck.RankedByQueueId | Bottleneck.BottleneckCapacity |
