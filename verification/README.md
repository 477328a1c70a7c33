# cbtf-krell: a Dafny model of the collection and reduction core

The Component Based Tool Framework collects performance data on the nodes of a parallel program and
reduces it on the way up a tree of communication processes (CPs) to a front end. The modules here
model the parts of it that carry real invariants, and prove what those parts promise.

- **ExtentGroup** (`Extents`, `KdTree`, `ExtentGroups`, `KdSplit`): a Kd-tree over time-by-address
  boxes that queries build on demand, shuffling a shared index in place. After any history it
  answers like a linear scan.
- **Reduction tree** (`Gather`, `GatherExact`, `ThreadEvents`, `AddressAggregation`,
  `FunctionStats`, `LinkedObjects`, `LinkedObjectTree`): nodes that merge one message per child and
  then emit. `Gather` is the protocol over an arbitrary finite tree and an arbitrary schedule of
  deliveries, and `GatherExact` shows that what it asks of the leaves is also needed; the others
  instantiate it for thread lists, finished signals, sampled address buffers and per-function maxima,
  minima and averages, and prove the front end equal to the flat reduction.
- **Address sets** (`AddressSets`, `AddressBitmaps`): splitting at the widest gap, and the bitmap
  encoding of the clusters, there and back.
- **Memory events** (`MemMetrics`, `MemBlobs`): outstanding bytes, live allocations, high water, and
  the packing of the events into blobs.
- **Topology** (`NodeLists`, `NodePadding`, `TopologySpec`, `TopologyFile`, `FlatTopology`): node
  lists in range notation, the choice of layers, the layered topology file, and the flattened tree.
- **Symbols** (`FunctionCover`): the functions that cover the sampled addresses.
- **Back ends** (`DsoBuffers`, `Collector`, `Interleaving`, `Transcripts`, `Atomicity`): the messages
  of a process whose threads start, send and stop in any interleaving, of whole calls and of single
  reads and writes of the shared flag, which the whole calls refine, and the buffer of loaded objects.

State that the program updates in place is a class whose methods are proved equal to a step function;
the theorems are about runs of that function. Machine words are explicit where they matter: addresses,
times, counts and sizes are 64-bit and wrap as in the source.

Some promises do not hold of the code as it stands. For each an exact condition is proved: the
halves of a Kd-tree node need not be separated by a plane (`KdSplit.BuiltSplitIff`); a gap of 2^63
or more is not split (`AddressSets.CompactIff`); a leaf can emit its thread list early, and exactly
then some schedule goes wrong (`ThreadEvents.DeliversIffRaceFree`); the linked-object filter keeps
objects sampled only at their end (`LinkedObjects.KeptWithoutSampleIff`), and a leaf whose last
message is a group, or a thread that keeps no object, silences every node above
(`LinkedObjectTree.ReachesFrontEndIff`); an empty layer before a non-empty one breaks the topology
file (`TopologyFile.TreeIff`), which computed layers never have (`TopologySpec.ComputeSpec`); names
in a padded node range come out too short (`NodePadding.PaddedIff`); grouping into levels does not
end for fanout 1 with several nodes, or for no nodes (`FlatTopology.LevelsEndIff`); a bitmap of 2^32
addresses is not encoded (`AddressBitmaps.SendAndReceive`), and a blob one byte short is read beyond
its end (`AddressBitmaps.ShortBlobIff`); once the memory account overflows it can rise above its own
high-water mark (`MemMetrics.HighwaterOfAllIff`) and is no longer the sum of the sizes
(`MemMetrics.ExactIff`); a blob header misses an event at the last representable time
(`MemBlobs.HeaderHoldsIff`); the object buffer is overrun by nameless objects
(`DsoBuffers.InRangeIff`); and threads that start together can lose the attached message
(`Interleaving.OrderlyIffSlippedSilent`), so that more threads terminate than attach
(`Interleaving.TerminationsAgainstAttaches`, `Interleaving.StartRace`).

Where code and comment disagree the model follows the code: `free(NULL)` is handled like any other
free although the comment calls it a no-op, and a failed `malloc` (returning 0) is counted at
address 0.

## Model

| member | source | states |
|---|---|---|
| `Extents.IntersectMeansSharedPoint` | core/include/KrellInstitute/Core/Extent.hpp:138-141 | two extents intersect exactly when some time and address lie in both |
| `Extents.BoundsGrow` | core/include/KrellInstitute/Core/Extent.hpp:98-103 | folding one more extent in with `|=` gives the hull of the set with that extent added; the hull is defined as the least covering box, not by the fold |
| `Extents.BoundsCatch` | core/src/ExtentGroup.cpp:157-159 | a query that meets a member meets the hull of the members, so pruning on the hull loses nothing |
| `KdTree.SplitOk` | core/src/ExtentGroup.cpp:281-309 | splitting a node keeps the whole index sound: `dm_map` a permutation, every built node's bounds the hull of its window, windows nested or apart, children covering their parent; no other node's members, bounds or built leaves change |
| `KdTree.LeafOk` | core/src/ExtentGroup.cpp:261-266 | turning a one-extent node into a leaf keeps the index sound and changes no other node |
| `KdTree.MembersKept` | core/src/ExtentGroup.cpp:289-292 | shuffling an unbuilt node's window leaves every other node's set of extents as it was, and disjoint windows untouched position by position |
| `KdTree.RoomForTwo` | core/src/ExtentGroup.cpp:295-309 | a node that can still split leaves room for its children: at most 2n-1 of the 2n slots are ever used |
| `ExtentGroups.NthElement` | core/src/ExtentGroup.cpp:289-292 | the pivot position splits the half-open window by centre point and the result is a rearrangement of that window alone |
| `ExtentGroups.Divide` | core/src/ExtentGroup.cpp:268-309 | the children's bounds are the hulls of the two halves, the last extent included; the window is partitioned about its middle by the centres in the wider dimension |
| `ExtentGroups.MissedNode` | core/src/ExtentGroup.cpp:157-159 | a node whose bounds miss the query holds no extent that a linear scan would find |
| `ExtentGroups.ExtentGroup.InitializeTree` | core/src/ExtentGroup.cpp:223-244 | a group whose size changed is rebuilt to a sound index from whatever nodes were left over; one whose size did not change is untouched |
| `ExtentGroups.ExtentGroup.BuildChildren` | core/src/ExtentGroup.cpp:259-310 | an unbuilt node becomes built, the index stays sound, and everything reachable from the other nodes is as before; a node of several extents gets two children of equal size, the left one larger by one for an odd number, its extents centred at or below the others but the last in the wider dimension |
| `ExtentGroups.ExtentGroup.GetBounds` | core/src/ExtentGroup.cpp:108-119 | the hull of all extents, and the empty extent for an empty group |
| `ExtentGroups.ExtentGroup.Visit` | core/src/ExtentGroup.cpp:153-173 | one turn of the traversal: what is found plus what is still reachable covers the linear scan, the sum of 2*window-1 over pending nodes falls, and nothing is built below a node that misses the query |
| `ExtentGroups.ExtentGroup.GetIntersectionWith` | core/src/ExtentGroup.cpp:134-179 | after any history of queries, appends and other changes of the size the answer is exactly the linear scan's; the traversal ends; at most 2n-1 slots are in use |
| `ExtentGroups.ExtentGroup.Append` | core/src/ExtentGroup.cpp:223-244 | a group that has only grown since it was indexed can always be queried; so can one that was cut back, unless it is exactly as large as its index again |
| `ExtentGroups.ExtentGroup.Change` | core/src/ExtentGroup.cpp:223-244 | any other change, removals too, leaves a group that can be queried if its size is not the size of its index |
| `ExtentGroups.ExtentGroup.GetIntersectionWithGroup` | core/src/ExtentGroup.cpp:194-211 | exactly the extents that meet some extent of the other group |
| `KdSplit.SeparatedIff` | core/src/ExtentGroup.cpp:251-255 | the promised plane between the halves is there exactly when enough of the other extents are centred at or below the last one, which nth_element leaves out |
| `KdSplit.BuiltSplitIff` | core/src/ExtentGroup.cpp:268-292 | of the children buildChildren leaves: all extents of the left one are centred at or below all of the right one, in the wider dimension, exactly under that condition |
| `KdSplit.SplitNeedNotSeparate` | core/src/ExtentGroup.cpp:281-292 | two extents that no allowed outcome of nth_element separates |
| `Gather.InvStep` | core/components/ThreadEventComponent.cpp:597-723 | every step at any node of the tree keeps the invariant tying each node's accumulator to the contributions it has taken |
| `Gather.RootEmission` | core/components/ThreadEventComponent.cpp:398-510 | for every schedule the root sends at most once, and then only the merge of all contributions, after every leaf is done and every node below has sent once |
| `Gather.StepWeight` | core/components/ThreadEventComponent.cpp:597-723 | every step that changes anything uses up one unit of work, so every schedule ends |
| `Gather.CompleteRunEmits` | core/components/ThreadEventComponent.cpp:532-585 | a schedule that can go no further has emitted at the root |
| `GatherExact.DeliversIff` | core/components/ThreadEventComponent.cpp:398-510 | for every tree whose leaves, when they emit at the end alone, emit their contribution: every schedule delivers one complete message if and only if every leaf emits exactly once, in its last call |
| `GatherExact.EarlyRun` | core/components/ThreadEventComponent.cpp:425-431 | in every tree whose leaves all emit, some schedule makes the root emit when each leaf has run no further than its first message |
| `Gather.FrontEnd` | core/components/ThreadEventComponent.cpp:398-510 | for every finite tree, leaf history and schedule: at most one emission, which stands for the combined contributions of all leaves, and exactly one when nothing more can move |
| `Gather.EveryNode` | core/components/ThreadEventComponent.cpp:597-723 | the same safety at every node, not only the root: in every schedule each node emits at most once, and its message stands for the contributions of the leaves below it |
| `ThreadEvents.ThreadEventComponent.ThreadsHandler` | core/components/ThreadEventComponent.cpp:597-723 | a leaf records the attached names and emits nothing; a node above merges child lists and emits on the last child's; the terminated count sent is the number of names |
| `ThreadEvents.ThreadEventComponent.ThreadStateHandler` | core/components/ThreadEventComponent.cpp:358-526 | a leaf emits its list, the count and finished exactly when terminations meet attaches; elsewhere only the counter moves |
| `ThreadEvents.ThreadEventComponent.FinishedHandler` | core/components/ThreadEventComponent.cpp:532-586 | a node above the leaves passes finished on when its last child has reported; a leaf does nothing |
| `ThreadEvents.LeafEmitsOnceIffRaceFree` | core/components/ThreadEventComponent.cpp:425-431 | a leaf emits its complete list exactly once, at the end, if and only if terminations do not meet attaches before the last event |
| `ThreadEvents.ThreadListAtFrontEnd` | core/components/ThreadEventComponent.cpp:398-510 | for every tree and delivery order the front end's list, sent once, is a permutation of all the leaves' lists; every node below has sent exactly once |
| `ThreadEvents.FinishedOnlyAfterAll` | core/components/ThreadEventComponent.cpp:532-586 | finished reaches the front end only after every leaf is done, when each has seen a termination for every attach, and always does in the end |
| `ThreadEvents.DeliversIffRaceFree` | core/components/ThreadEventComponent.cpp:398-510 | for every tree: every schedule gives at most one list, complete, after every leaf is done and with every node having sent once, and can always still be continued to one, if and only if every leaf is free of the race |
| `ThreadEvents.FinishedIffRaceFree` | core/components/ThreadEventComponent.cpp:532-586 | the same for the finished signal |
| `ThreadEvents.RaceLosesThread` | core/components/ThreadEventComponent.cpp:425-427 | with a thread that attaches after another has ended, a two-node tree emits a list without it |
| `AddressAggregation.AddressBuffer.UpdateFrom` | core/src/AddressBuffer.cpp:103-116 | the merged buffer holds, at every address, the 64-bit sum of the two counts |
| `AddressAggregation.AddressBuffer.UpdateOne` | core/src/AddressBuffer.cpp:85-101 | one count is added at its address; address 0 is ignored |
| `AddressAggregation.AddressAggregator.BlobHandler` | core/components/AddressAggregatorComponent.cpp:475-574 | a leaf merges the blob's counts and emits nothing; other nodes are unchanged |
| `AddressAggregation.AddressAggregator.NumTerminatedHandler` | core/components/AddressAggregatorComponent.cpp:347-409 | a leaf emits its buffer when the ended threads reach the known threads; other nodes only count |
| `AddressAggregation.AddressAggregator.AddressBufferHandler` | core/components/AddressAggregatorComponent.cpp:624-714 | a node merges each child's buffer and emits on the last child's |
| `AddressAggregation.MergeRespects` | core/components/AddressAggregatorComponent.cpp:624-708 | merging buffers represents adding the multisets of samples, dropping address 0 |
| `AddressAggregation.LeafEmitsOnceIff` | core/components/AddressAggregatorComponent.cpp:347-409 | a leaf emits exactly once and with everything it merged, if and only if its counters first meet at its last event |
| `AddressAggregation.BufferAtFrontEnd` | core/components/AddressAggregatorComponent.cpp:624-714 | for every tree and order the front end's buffer, sent once, is at every non-zero address the sum modulo 2^64 of all counts merged at all leaves; it is always sent in the end |
| `AddressAggregation.NoZeroAtFrontEnd` | core/src/AddressBuffer.cpp:85-101 | what any tree of more than one process emits has nothing at address 0, whatever the leaves counted there |
| `AddressAggregation.DeliversIffReadyAtEndOnly` | core/components/AddressAggregatorComponent.cpp:347-409 | for every tree: every schedule delivers one complete buffer, after every leaf is done, if and only if at every leaf the counters meet at its last event and not before |
| `FunctionStats.Tally` | core/components/SymbolComponent.cpp:1165-1192 | one entry per function and thread seen, holding the 64-bit sum of its samples, and none else |
| `FunctionStats.Extremes` | core/components/SymbolComponent.cpp:1264-1294 | the largest and smallest non-zero value of each function: both are there for exactly the functions with a non-zero entry, each is attained by the thread it names, and every non-zero entry lies between the two |
| `FunctionStats.LeafBestIsBest` | core/components/SymbolComponent.cpp:1264-1294 | a leaf's record is attained by the recorded thread; for the maximum no non-zero entry of the function is greater, for the minimum none is smaller |
| `FunctionStats.LeafRecordsFirst` | core/components/SymbolComponent.cpp:1264-1294 | of several threads with the extreme value the first entry is the one recorded |
| `FunctionStats.MergeAt` | core/components/SymbolComponent.cpp:389-603 | a record gives way only to a strictly greater maximum or a strictly smaller minimum |
| `FunctionStats.ResolveSymbols.MaxHandler` | core/components/SymbolComponent.cpp:389-492 | each child's maxima are merged in; emission on the last child's message |
| `FunctionStats.ResolveSymbols.MinHandler` | core/components/SymbolComponent.cpp:499-603 | each child's minima are merged in; emission on the last child's message |
| `FunctionStats.ResolveSymbols.AvgHandler` | core/components/SymbolComponent.cpp:611-718 | each child's totals and thread counts are added in; emission on the last child's message |
| `FunctionStats.BestAtFrontEnd` | core/components/SymbolComponent.cpp:389-603 | for every tree and order the front end's maxima (and minima) are those of one flat pass over all leaf entries, each attained by the thread it names |
| `FunctionStats.ComputeAverages` | core/components/SymbolComponent.cpp:1194-1231 | total and thread count of each function at a leaf |
| `FunctionStats.AveragesAtFrontEnd` | core/components/SymbolComponent.cpp:611-718 | for every tree and order the front end's totals and counts are the flat sums over all leaf entries, modulo 2^64 |
| `FunctionStats.BestEverywhere` | core/components/SymbolComponent.cpp:389-603 | what any node emits, in any schedule, are the flat maxima (minima) over the leaves below it |
| `FunctionStats.BetweenEverywhere` | core/components/SymbolComponent.cpp:389-603 | at every node, whatever the two schedules, once it has emitted both: minima and maxima are of the same functions, minimum <= every non-zero entry of the leaves below <= maximum, both attained |
| `FunctionStats.AveragesEverywhere` | core/components/SymbolComponent.cpp:611-718 | what any node emits, in any schedule, are the flat totals and counts over the leaves below it |
| `FunctionStats.AverageAtMostMaximum` | core/components/SymbolComponent.cpp:1194-1294 | flat maxima and flat averages of the same leaves: total <= maximum * count for each function with a non-zero total; wrapping only lowers the total |
| `FunctionStats.AverageAtMostMaximumEverywhere` | core/components/SymbolComponent.cpp:389-718 | for every tree, every two schedules of maxima and averages and every node that has emitted both: total <= maximum * threads for each function with a non-zero total |
| `AddressSets.WidestGap` | core/src/SymbolTable.cpp:511-531 | the position of the widest gap, as a signed 64-bit difference, and that no gap is wider |
| `AddressSets.ClustersAreMaximalRuns` | core/src/SymbolTable.cpp:484-550 | the one-pass clusters are non-empty, concatenate to the input, have no splitting gap inside and one between any two |
| `AddressSets.MaximalRunsUnique` | core/src/SymbolTable.cpp:484-550 | no other sequence of runs has that property |
| `AddressSets.PartitionAddressSet` | core/src/SymbolTable.cpp:484-550 | the widest-gap worklist ends, by a weight of 2|s|-1 per queued set, with exactly the one-pass clusters in some order |
| `AddressSets.TogetherIff` | core/src/SymbolTable.cpp:361-453 | two neighbouring addresses end up in one set if and only if at most 160, or at least 2^63, addresses lie between them |
| `AddressSets.DisjointSpans` | core/src/SymbolTable.cpp:484-550 | any two resulting sets lie wholly one below the other |
| `AddressSets.CoversExactly` | core/src/SymbolTable.cpp:484-550 | an address is in some resulting set exactly when it was in the input |
| `AddressSets.CompactIff` | core/src/SymbolTable.cpp:521-540 | no resulting set has a gap over 160, if and only if the input has no gap of 2^63 or more, which the signed difference turns negative |
| `AddressSets.HugeGapIsKept` | core/src/SymbolTable.cpp:521-540 | two addresses that stay together across such a gap |
| `AddressSets.TotalSpan` | core/src/SymbolTable.cpp:484-550 | without such gaps the spans add up to at most 161 times the number of addresses |
| `AddressBitmaps.LoopEndsIff` | core/src/AddressBitmap.cpp:69-70 | a loop with a 32-bit unsigned counter gets to the end of a bitmap if and only if it is narrower than 2^32 |
| `AddressBitmaps.ByteIsItsBits` | core/src/AddressBitmap.cpp:129-137 | a byte of a blob is the sum of its bits, bit k counting 2^k |
| `AddressBitmaps.FromBlob` | core/src/AddressBitmap.cpp:60-71 | reading ends if and only if the bitmap is narrower than 2^32; then bit i of the map is bit i of the blob, or of the byte behind it where the assertion lets a short blob through |
| `AddressBitmaps.ShortBlobIff` | core/src/AddressBitmap.cpp:65 | the byte behind the blob has no influence if and only if the blob has the number of bytes getBlob writes; the assertion asks for one less |
| `AddressBitmaps.AddressBitmap.SetValue` | core/src/AddressBitmap.cpp:83-90 | that address's bit changes and no other |
| `AddressBitmaps.AddressBitmap.GetBlob` | core/src/AddressBitmap.cpp:120-142 | a blob comes out exactly for bitmaps narrower than 2^32; it has the least sufficient number of bytes and carries the bits, low bit first |
| `AddressBitmaps.AddressBitmap.GetContiguousRanges` | core/src/AddressBitmap.cpp:155-185 | the ranges cover exactly the addresses with the value and are maximal: non-empty, in order, never touching |
| `AddressBitmaps.DecodeEncoded` | core/src/AddressBitmap.cpp:60-71 | decoding an encoded map gives the map back, whatever lies behind the blob |
| `AddressBitmaps.CollectAddresses` | core/src/SymbolTable.cpp:370-376 | the ordered set of all addresses in the ranges, without duplicates |
| `AddressBitmaps.PartitionAddressRanges` | core/src/SymbolTable.cpp:361-453 | one bitmap for each cluster of the addresses, spanning it exactly and marking just its members |
| `AddressBitmaps.Convert` | core/src/SymbolTable.cpp:566-591 | entries come out exactly if every bitmap is narrower than 2^32; each carries its bitmap's range and encoding |
| `AddressBitmaps.SendAndReceive` | core/src/SymbolTable.cpp:361-453 | ranges to bitmaps to blobs and back: completes if and only if every cluster of the addresses spans fewer than 2^32; then an address is marked exactly when some range held it, and the bitmap ranges are pairwise disjoint and together at most 161 times as wide as there are addresses |
| `AddressBitmaps.TooWide` | core/src/SymbolTable.cpp:361-453 | the ranges [0, 1) and [2^63+1, 2^63+2) make one cluster too wide to complete |
| `NodeLists.RunsAreMaximal` | core/src/CBTFTopology.cpp:121-158 | the runs printed are the maximal consecutive runs of the numbers, and expand to exactly them |
| `NodeLists.PrintRanges` | core/src/CBTFTopology.cpp:121-168 | the one-pass printer writes those runs, single numbers alone and longer runs as first-last |
| `NodeLists.PrintShape` | core/src/CBTFTopology.cpp:121-168 | one comma between consecutive runs, one dash in each run of several numbers, digits otherwise |
| `NodeLists.ExtractRanges` | core/src/CBTFTopology.cpp:95-170 | from any list of tokens: the runs of the set of its numbers |
| `NodeLists.DecodeNodes` | core/src/CBTFTopology.cpp:423-506 | the index-driven decoder of the text between brackets computes the decoding defined on the remaining text, stopping at any unexpected character |
| `NodeLists.DecodePrinted` | core/src/CBTFTopology.cpp:434-506 | decoding printed runs adds base+n for each number in increasing order and leaves the parser ready |
| `NodeLists.CBTFTopology.SetNodeList` | core/src/CBTFTopology.cpp:377-516 | the group loop computes the parse defined on the remaining list, unclosed brackets and stray `]` included |
| `NodeLists.ParsePrinted` | core/src/CBTFTopology.cpp:377-516 | parsing any printed list of plain names and `prefix[...]` groups gives exactly the names and prefix+n for each number, in order |
| `NodePadding.MinLengthIs` | core/src/CBTFTopology.cpp:423-432 | the padding width is the length of the longest token that a comma or dash follows, 0 if there is none |
| `NodePadding.RangeDecoded` | core/src/CBTFTopology.cpp:436-490 | a range lo-hi adds the names of its numbers, all with the padding of the last one, if a leading zero was seen in this or an earlier range end |
| `NodePadding.PaddedIff` | core/src/CBTFTopology.cpp:419-490 | a range whose ends are written with equally many digits gives names with that many digits if and only if it is empty or its first and last numbers have equally many digits without leading zeros |
| `NodePadding.ExampleIsNotPadded` | core/src/CBTFTopology.cpp:421-422 | the example of the comment, mu[0001-1594], does not give mu0001 to mu1594 |
| `MemMetrics.MetricsRecord.MemMetrics` | core/src/PerfData.cpp:470-1190 | the event loop computes the fold of the modelled events, calloc and memalign changing nothing |
| `MemMetrics.OtherKinds` | core/src/PerfData.cpp:579-756 | realloc(NULL, n) changes the metrics like malloc(n) but for the event recorded, realloc(p, 0) exactly like free(p); realloc(NULL, 0), calloc, memalign and posix_memalign change nothing |
| `MemMetrics.MallocAndFree` | core/src/PerfData.cpp:491-577 | malloc adds its bytes to the account and to its address, modulo 2^64, and makes the address active; free takes what its address had from the account and leaves 0, no longer active |
| `MemMetrics.MetricsRecord.Allocate` | core/src/PerfData.cpp:491-577 | malloc, and realloc of NULL: size, account, high water, active entry and record event |
| `MemMetrics.MetricsRecord.Release` | core/src/PerfData.cpp:1095-1141 | free, and realloc to 0: the entry drops to 0, the account falls by it, the active entry goes |
| `MemMetrics.BlobsDoNotMatter` | core/src/PerfData.cpp:447-470 | however the events are cut into blobs the metrics are the same |
| `MemMetrics.Accounting` | core/src/PerfData.cpp:491-536 | over every run the account and each size equal the bytes outstanding modulo 2^64, the bytes being counted without machine words |
| `MemMetrics.ExactIff` | core/src/PerfData.cpp:508-509 | the account is the bytes outstanding if and only if they are below 2^64, and the sum of the sizes if and only if that sum is below 2^64; while the bytes fit the sizes are the bytes |
| `MemMetrics.SumsAgreeWithoutRoom` | core/src/PerfData.cpp:496-508 | the two conditions differ: with 2^64 bytes outstanding at one address, account and sizes are both 0 |
| `MemMetrics.NoUnderflowIff` | core/src/PerfData.cpp:1098-1123 | no free of a run lifts the account if and only if each finds at least its size in the account |
| `MemMetrics.NoUnderflow` | core/src/PerfData.cpp:1098-1123 | while the outstanding bytes fit in the counter every free does |
| `MemMetrics.ActiveAreUnfreed` | core/src/PerfData.cpp:517-535 | over every run the active map holds exactly the addresses allocated with no later free, each with the first allocation since its last free; every non-zero size is among them |
| `MemMetrics.HighwaterIsPeak` | core/src/PerfData.cpp:508-568 | over every run highwater is the highest account after an allocation; the interesting events are exactly the allocations that beat all before, with strictly rising totals ending at highwater |
| `MemMetrics.HighwaterOfAllIff` | core/src/PerfData.cpp:508-568 | throughout a run highwater is the maximum of the account over all prefixes, frees included, if and only if each free finds its size in the account or wraps to no more than highwater |
| `MemMetrics.HighwaterOfAll` | core/src/PerfData.cpp:604-665 | while the bytes fit in the counter it is, and no free underflows |
| `MemMetrics.HighwaterNeedsRoom` | core/src/PerfData.cpp:1123 | when they do not fit, a free can lift the account above its high-water mark |
| `MemBlobs.MemAggregator.UpdateData` | core/components/MemAggregatorComponent.cpp:954-1026 | the event is appended, the header interval widened, and full reported at EventBufferSize or when the stacks are full |
| `MemBlobs.MemAggregator.EmitThread` | core/components/MemAggregatorComponent.cpp:392-622 | the blobs' events concatenate to interesting, call-path and still-allocated events in order, each blob with its own header interval; every blob but the last ends exactly where EventBufferSize events are in it or the stack buffer is full, and no other event of a blob fills that |
| `MemBlobs.CutUnique` | core/components/MemAggregatorComponent.cpp:392-622 | there is only one such way to cut a list of events into blobs |
| `MemBlobs.BlobCount` | core/components/MemAggregatorComponent.cpp:1019-1023 | without a full stack buffer the number of blobs is the number of events over EventBufferSize, rounded up |
| `MemBlobs.BeginIsLeast` | core/components/MemAggregatorComponent.cpp:976-978 | the header begins at the earliest start time |
| `MemBlobs.EndIsPastLast` | core/components/MemAggregatorComponent.cpp:979-981 | the header ends one past the latest stop time, unless an event stops at the last representable time |
| `MemBlobs.HeaderHoldsIff` | core/components/MemAggregatorComponent.cpp:976-981 | the header interval holds every start and stop time of the blob if and only if no event stops at the last representable time, where the increment wraps |
| `TopologyFile.ProcessList` | core/src/CBTFTopology.cpp:1271-1311 | the front end, then whole rounds of the hosts, stopping when the number needed is met exactly or all slots are used; a host that is the front end counts from 1 |
| `TopologyFile.NamesUniqueIff` | core/src/CBTFTopology.cpp:1290-1311 | all host:index names are distinct if and only if the hosts are |
| `TopologyFile.PlacesUsed` | core/src/CBTFTopology.cpp:1294-1311 | after r rounds the front end's host has indices 0 to r if it is among the hosts and 0 otherwise, and every other host exactly 0 to r-1 |
| `TopologyFile.SharesAddUp` | core/src/CBTFTopology.cpp:1358-1366 | the children given to the parents of a layer add up to the layer |
| `TopologyFile.WriteLayers` | core/src/CBTFTopology.cpp:1334-1374 | with a process for the front end and each place in the layers, neither early return is taken and the lines are the layers' |
| `TopologyFile.LinesFormLayers` | core/src/CBTFTopology.cpp:1334-1374 | each layer's parents are exactly the previous layer's children, its children exactly the next processes, child counts within one of each other and never rising |
| `TopologyFile.LayersFormTree` | core/src/CBTFTopology.cpp:1334-1374 | such lines form a tree: children follow each other without overlap from 1 up, each parent earlier than its children |
| `TopologyFile.OneParent` | core/src/CBTFTopology.cpp:1334-1374 | every process but the root is the child of exactly one line |
| `TopologyFile.AllWrittenIff` | core/src/CBTFTopology.cpp:1334-1374 | all processes of the layers are written as children if and only if no empty layer comes before one that is not empty |
| `TopologyFile.TreeIff` | core/src/CBTFTopology.cpp:1334-1374 | the lines form a tree over all processes under exactly that condition, and then layer by layer as above |
| `TopologyFile.GapMakesLoop` | core/src/CBTFTopology.cpp:1334-1374 | the specification 1-0-1-1 writes a process as its own child |
| `TopologyFile.CreateTopology` | core/src/CBTFTopology.cpp:1246-1378 | for every front end, host list, slot count and layers: no file without slots; otherwise the layers, or one layer of all slots if they ask for too much, are written; names are distinct exactly when hosts are, and the file is a tree rooted at the front end exactly when the layers written have no empty one before one that is not empty |
| `TopologySpec.AttachSpec` | core/src/CBTFTopology.cpp:1146-1166 | the specification for attaching back ends: powers of the fanout, adding up to the processes needed |
| `TopologySpec.StartSpec` | core/src/CBTFTopology.cpp:1167-1206 | the specification for started back ends: the groups of nodes and the back ends, zeros after the first left out, adding up to the processes needed |
| `TopologySpec.ComputedTreeIff` | core/src/CBTFTopology.cpp:1146-1206 | computed specifications have no gap for attaching back ends, and for started ones unless there are back ends and no nodes above them |
| `TopologySpec.RootFitsIff` | core/src/CBTFTopology.cpp:1115-1117 | the rounded-up root is within the limit exactly when the limit to that power reaches the number of nodes |
| `TopologySpec.ChooseDepth` | core/src/CBTFTopology.cpp:1113-1119 | the fanout is within the limit if and only if some depth below 1024 has room for the nodes; then the depth is the least such, the one grouping into levels gives, and the fanout the least for it; there is room for the nodes in any case |
| `TopologySpec.ChooseShape` | core/src/CBTFTopology.cpp:1094-1128 | wishes are followed; without one, attaching back ends get the least depth as above; started ones get at least depth 3 and a fanout of 32 |
| `TopologySpec.ComputeSpec` | core/src/CBTFTopology.cpp:1111-1236 | a computed specification never asks for more processes than there is room for and is always written as a tree; attaching back ends get a last layer with a place for every node and started ones a last layer of their own, unless room runs out |
| `FlatTopology.BuildLevel` | core/src/CBTFTopology.cpp:299-328 | one parent for each group of fanout consecutive nodes, the last group what remains |
| `FlatTopology.BuildTree` | core/src/CBTFTopology.cpp:281-336 | leaves in order are the nodes, 1 to fanout children everywhere, all leaves at the least depth d >= 1 with fanout^d >= n |
| `FlatTopology.LevelsEndIff` | core/src/CBTFTopology.cpp:297-335 | some round leaves a single node if and only if fanout >= 2 and there is a node, or fanout is 1 and there is one node |
| `FlatTopology.AssignTopologyIndices` | core/src/CBTFTopology.cpp:233-248 | the recursion numbers the processes in preorder with the map's counters |
| `FlatTopology.Preorder` | core/src/CBTFTopology.cpp:239-247 | a node is numbered before its children, and one child with all below it before the next |
| `FlatTopology.IndicesAreContiguous` | core/src/CBTFTopology.cpp:233-248 | processes on a host have distinct indices, exactly 0..k-1 for k processes |
| `FlatTopology.BuildFlattenedTopology` | core/src/CBTFTopology.cpp:281-372 | the finished tree under the front end's name, with contiguous indices per host, the front end's the first |
| `FunctionCover.FunctionSearch.Consider` | core/src/BFDSymbols.cpp:608-691 | a candidate is added if and only if it has a sampled address no function recorded before has; afterwards every sampled address inside it is covered, and found plus remaining stays the initial count despite erasing while iterating |
| `FunctionCover.FunctionSearch.GetFunctionSyms` | core/src/BFDSymbols.cpp:608-710 | the functions recorded are, in order, exactly the candidates with a sampled address no earlier candidate has, and cover exactly the sampled addresses some candidate covers, stopping early included |
| `LinkedObjects.SampledIsKept` | core/components/LinkedObjectComponent.cpp:295-320 | no object with a sample in its range is dropped |
| `LinkedObjects.FilteredAre` | core/components/LinkedObjectComponent.cpp:295-333 | the objects kept are exactly those with a sample from their beginning to their end, the end included, or all if there are no samples, in order and each as often as it was there |
| `LinkedObjects.KeptWithoutSampleIff` | core/components/LinkedObjectComponent.cpp:301-320 | of the objects given, one without a sample in its half-open range passes the filter if and only if its end address was sampled |
| `LinkedObjects.LinkedObjectComponent.NumTerminatedHandler` | core/components/LinkedObjectComponent.cpp:262-385 | counts add up; when endings and groups both reach the thread count the filtered groups are emitted |
| `LinkedObjects.LinkedObjectComponent.GroupHandler` | core/components/LinkedObjectComponent.cpp:447-538 | the first group of each thread is kept; above the leaves the groups are emitted when both counts are reached |
| `LinkedObjects.FirstGroupStays` | core/components/LinkedObjectComponent.cpp:447-538 | after any messages a thread has the objects of the first group that came for it |
| `LinkedObjects.EmitsOnce` | core/components/LinkedObjectComponent.cpp:447-538 | above the leaves, for every interleaving of one group per thread and positive counts, emission happens exactly once, at the last message: all threads' groups if that is a group, and those with an object kept by the filter if it is a count |
| `LinkedObjects.LeafEmitsIffCountIsLast` | core/components/LinkedObjectComponent.cpp:286-295 | a leaf emits once if the last message is a count, and never if it is a group |
| `LinkedObjectTree.ReachesFrontEndIff` | core/components/LinkedObjectComponent.cpp:262-385 | in every tree and arrival order a node above the leaves emits if and only if at every leaf below a count comes last and every group has an object with a sample in its range, or an object where there are no samples; then it emits every thread with the objects its leaf kept |
| `LinkedObjectTree.OnlyTheLastEmits` | core/components/LinkedObjectComponent.cpp:447-538 | no node above the leaves emits before its last message |
| `DsoBuffers.SlotInRangeIff` | services/collector/collector.c:1099-1130 | one step: the next object is written inside the buffer except exactly when it is full and all names are empty |
| `DsoBuffers.InRangeIff` | services/collector/collector.c:1099-1130 | any list of objects from an empty buffer: every write is inside if and only if no nameless object meets a buffer full of nameless ones |
| `DsoBuffers.OftenEnoughIsInRange` | services/collector/collector.c:1099-1130 | a name among any capacity + 1 objects in a row is enough |
| `DsoBuffers.NamelessInRangeIff` | services/collector/collector.c:1099-1130 | nameless objects alone are in range exactly up to the capacity; the next is written just past the end |
| `DsoBuffers.DsoBuffer.RecordDso` | services/collector/collector.c:1099-1130 | the buffer goes out first, if connected, exactly when its objects and names with the new name exceed the room for objects; then the object is appended, and an overrun reported exactly when it happens |
| `DsoBuffers.DsoBuffer.SendDsos` | services/collector/collector.c:821-858 | while connected the buffer goes out as one group; it is emptied either way |
| `DsoBuffers.DsoBuffer.RecordDsos` | services/collector/collector.c:860-923 | succeeds exactly when every write is in range; while connected the groups sent are then all objects recorded, in order, a new group beginning exactly where the next object is too much for the one before |
| `DsoBuffers.CutUnique` | services/collector/collector.c:1099-1130 | there is only one such way to cut the objects into groups, given whether the first is empty |
| `Collector.CollectorProcess.SendAttachedToThreadsMessage` | services/collector/collector.c:283-325 | sent once, and only when connected |
| `Collector.CollectorProcess.CollectorSend` | services/collector/collector.c:508-568 | with a connection, attached if not sent before and then the data; without one, nothing |
| `Collector.CollectorProcess.StartSampling` | services/collector/collector.c:581-711 | the first thread of a program without MPI connects; a connected thread attaches |
| `Collector.CollectorProcess.StopSampling` | services/collector/collector.c:726-792 | an active OpenMP thread does nothing; an attached thread sends its objects, then terminated; when the last thread leaves the network is taken down |
| `Collector.StepKeeps` | services/collector/collector.c:283-325 | every call by any thread keeps the wire orderly and the thread flags in step with it |
| `Collector.EveryRun` | services/collector/collector.c:726-786 | in every interleaving of whole calls each thread attaches at most once and before anything else it sends, sends nothing after terminated; at every moment terminations do not exceed attaches, and they are equal once all threads have stopped |
| `Collector.EveryThreadSays` | services/collector/collector.c:508-792 | in every interleaving of whole calls, at every moment, the messages of a thread are settled by the calls alone: nothing if it never had anything to send with the connection up; otherwise attached, the data of each send made with the connection up, and after its stop all its groups and terminated |
| `Collector.DownIffAllStopped` | services/collector/collector.c:781-784 | the network is taken down when the last thread has stopped and not before |
| `Interleaving.HonestIffNoSlips` | services/collector/collector.c:543-549 | in every interleaving of single reads, writes and messages: each thread takes the attached message for sent exactly when it was, if and only if no second read of the connection flag within a call finds it cleared |
| `Interleaving.OrderlyIffSlippedSilent` | services/collector/collector.c:283-325 | in every such interleaving, at every moment: attached comes at most once and before anything else and nothing comes after terminated, if and only if no thread with such a read has sent anything |
| `Interleaving.TerminationsAgainstAttaches` | services/collector/collector.c:726-786 | in every such interleaving, at every moment: terminations exceed attaches by the threads that had such a read and terminated, less those that attached and have not |
| `Interleaving.OrderlyWithoutSlips` | services/collector/collector.c:508-568 | without such a read the messages of every interleaving are in order and terminations never exceed attaches |
| `Interleaving.AllTerminated` | services/collector/collector.c:653-684 | if the flag is never cleared while set there is no such read, and once all threads have left the counts are equal |
| `Interleaving.MpiRuns` | services/collector/collector.c:653-684 | with MPI, where starting does not touch the flag, all of this holds of every interleaving |
| `Interleaving.DownIffAllLeft` | services/collector/collector.c:726-786 | in every interleaving of single steps the count is that of the threads that have not left, and the network goes down with the last of them |
| `Transcripts.EveryThreadSettles` | services/collector/collector.c:283-325 | in every such interleaving, at every moment: what a thread has sent and what it is in the middle of sending are exactly attached, the data, the groups and terminated for which it found the connection flag set, in this order |
| `Transcripts.LeftHasSaidAll` | services/collector/collector.c:726-792 | if the flag is never cleared while set, a thread that has left has sent nothing, or attached, the data of each call that found the flag set, all the groups it stopped with and terminated |
| `Atomicity.CallsAreUninterrupted` | services/collector/collector.c:508-792 | the single steps of any call, made by its thread without a break, have the effect of the call as a whole |
| `Atomicity.RunsAreInterleavings` | services/collector/collector.c:508-792 | every run of whole calls is an interleaving of single steps that ends in the same state |
| `Interleaving.StartRace` | services/collector/collector.c:658-684 | without MPI, with the network up throughout: for any three threads there is an interleaving that ends with two terminations against one attach, because the count is read outside its lock |

## Left out

- MRNet, XDR, BFD, Dyninst, PAPI and libmonitor calls, files, the environment and debug output: messages are values, a connection attempt succeeds as in the source, and the written file is the sequence of its entries.
- ExtentGroups.ExtentGroup.Change: a change that leaves the group as large as its index is not followed by a promise, because the rebuild test looks only at the size and the index is then stale.
- `std::nth_element` is modelled by one algorithm that meets its specification; the invariants and `KdSplit` hold for any rearrangement that does.
- The first value of `dm_next`, which the source leaves unset until the first query, is 0.
- MemMetrics.MetricsRecord.MemMetrics: the general realloc (non-NULL pointer, non-zero size, core/src/PerfData.cpp:757-1081) is left out, because it writes through an iterator left at the end of the map, so no account is kept by it.
- totalAllocations, totalFrees, the call-path statistics and durations of PerfData::memMetrics: plain counters beside the account.
- MemBlobs.MemAggregator.UpdateData: whether the stack trace buffer is full is an input; the stack interning search (core/components/MemAggregatorComponent.cpp:985-1015) is not modelled.
- AddressBitmaps.FromBlob: no result stands for the loop that does not end on a bitmap of 2^32 or more addresses; the blob is as long as the assertion in the source asks.
- NodeLists.DecodeNodes: numbers are unbounded where the source uses atoi and unsigned int, the token buffer is unbounded, a zero range end has one digit of padding (the source takes the logarithm of 0), and Cray names are not modelled.
- NodeLists.ExtractRanges: tokens are numbers already; the conversion from text and its exceptions are not modelled.
- TopologyFile.CreateTopology: layers are given as numbers; the text of the specification is not modelled.
- TopologySpec.ChooseDepth: roots and powers are exact where the source computes them in float and int.
- PrintTopology, node files, job environment parsing and host detection of CBTFTopology: they would only add easy members.
- FlatTopology.BuildFlattenedTopology: the front end's name is given; nodes are tree values rather than shared pointers, and indices are listed in preorder rather than stored in the nodes.
- remove_useless_symbols, compare_symbols and the symbol tests that choose the candidates of `FunctionCover.FunctionSearch.GetFunctionSyms`.
- Collector.EveryRun: calls are atomic here and single steps in Interleaving; in both each thread starts once and makes no call after it has stopped, as stopping twice would send terminated twice, and none starts after the last one has left and the network is down.
- Interleaving.MpiRuns: an OpenMP thread whose stop is ignored is one that has not called it; the single messages of the network layer are atomic.
- DsoBuffers.DsoBuffer.RecordDso: the sizes are unbounded where the source computes in int; cbtf_offline_record_dlopen repeats the same rule.
- The per-thread address maps beside the aggregated buffer: insertion keeps only a thread's first blob, so they are not totals.
- Atomicity.CallsAreUninterrupted: a stop that an active OpenMP thread ignores, and a connect by hand without MPI, have no single steps.
- LinkedObjectTree.ReachesFrontEndIff: nodes above the leaves have no address counts to filter by, as the source notes (core/components/LinkedObjectComponent.cpp:290), and each knows its threads before its first message.
- The linked-object messages for dlopen and dlclose, and the address space map a node above the leaves emits only when a count comes last.
