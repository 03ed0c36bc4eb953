# Verified models of the media foundation's core

A Dafny model of the parts of the repository that hold real state: the AVBuffer queue, the pipeline's filter graph,
capability negotiation, the parcel codecs of metadata and buffers, the media clock, and four small protocols
(memory bytes, shared memory pool, synchronizer, plugin registry). `dafny verify dfyconfig.toml` checks everything.

| file | part of the system |
|---|---|
| `BufferQueueSpec.dfy`, `BufferQueueInvariant.dfy`, `BufferQueueProperties.dfy`, `BufferQueueProgress.dfy`, `BufferQueueShrink.dfy`, `BufferQueueLifecycle.dfy`, `BufferQueue.dfy` | the buffer queue: its sections as functions on a queue value, the invariant over every interleaving, the client properties, when each section succeeds, what shrinks do, the life of a single buffer, and the object whose methods refine the functions |
| `PipelinePorts.dfy`, `PipelineGraph.dfy`, `KahnSort.dfy`, `Reachability.dfy`, `PipelineCore.dfy` | ports and links on the heap, the index graph, topological sorting, reachability, and the pipeline operations |
| `CapabilityValues.dfy`, `CapabilityMerge.dfy` | constraints on one key, then merging of whole capabilities and of metadata with a capability |
| `Parcels.dfy`, `MetaCodec.dfy`, `AVBufferCodec.dfy`, `AVBufferIds.dfy`, `AVBufferObject.dfy` | the parcel, tagged values and metadata, whole buffers (values), unique ids, whole buffers (objects) |
| `MediaClock.dfy` | the anchored clock |
| `AVMemory.dfy`, `SharedMemoryPool.dfy`, `Synchronizer.dfy`, `PluginRegistry.dfy` | the small protocols |
| `AVBufferCommon.dfy`, `Sequences.dfy` | buffer configurations and shared facts |

The style is the same everywhere. What the program changes in place is a class whose methods are proved equal to
functions on an immutable value (`State()`, `Now()`, `Rest()`); the properties are lemmas about those functions and
about runs of them. Each mutex-held section is one atomic step, so a property of every run of steps is a property of
every interleaving of threads.

## How the queue is cut into steps

A request is two steps, one up to the condition wait and one after it, and the second may happen in any state,
whatever woke the thread. Push, return, attach, detach, acquire, release, growing and shrinking are one step each. A
buffer shares its configuration with its holder, so the configuration that `PushBuffer`, `ReturnBuffer` and
`AttachBuffer` see is an input of the step. Ids of new buffers are inputs too and are fresh. The forced detach at the
end of a failed filled attach is a step of its own; it may run only when the id is in neither list.
`BufferQueueInvariant.ForcedDetachIff` shows that this is exactly the condition under which it keeps the queue
consistent, and `BufferQueue.AVBufferQueueImpl.AttachBuffer` which calls meet it when no other thread intervenes.

## Where the code does not do what its comments or its interface say

The model follows the code. For each point a lemma shows an input at which the code fails, and another one says
exactly when it does what it should.

- The forced detach leaves its id in the dirty list when an attach of a filled buffer finds neither a broker nor a
  consumer listener (`UnlistenedAttachLeavesDanglingId`; exact conditions in `ForcedDetachIff` and `AttachBuffer`).
- A shrink compares sizes before it takes the lock and subtracts after. When another resize came between, the unsigned
  difference wraps, both lists are emptied and every buffer is marked (`LateShrinkInterleaving`,
  `LateShrinkDropsEverything`; exact condition in `ShrinkIsExactIff`).
- A deletion counts buffers that are pending already once more, so a second shrink can leave too many
  (`ShrinkTwiceLeavesTooMany`; exact condition in `ShrinkReachesIff`).
- The capability comparators narrow a difference to 32 bits. Two bitrates 2^32 apart pass for equal
  (`BitratesApartPassForEqual`, `FixedPairIff`), a wide interval rejects values between its ends
  (`WideIntervalRejectsInside`, `FixedInIntervalIff`), a narrow one accepts bitrates a multiple of 2^32 away
  (`NarrowIntervalAcceptsOutside`, `FixedInNarrowIntervalIff`, `FixedInIntervalOnArc`), and intervals are put in order
  except against a list (`ReversedIntervalRejectsList`, `ListNeedsOrderedInterval`).
- `MergeMetaWithCapability` is documented to keep entries that only the metadata has; the code also replaces an
  interval or a list among them by one of its values (`MetaOnlyIntervalIsReplaced`, `MetaOnlyEntryKeptIff`).
- `BaseTypesFromParcel` documents a "no retry" code, but its caller retries for every code other than success
  (`UnknownCodeTakesNextInteger`, `UnknownCodeIsRefusedIff`).
- Some metadata is reported as written and does not come back: an unsigned 64-bit entry such as the file size
  (`UnsignedEntryIsLost`), and an enumeration under a tag that is not registered for it, after which the reader is out
  of step (`UnregisteredEnumerationLosesPlace`). `MetaUnchangedIff` says exactly what comes back unchanged, and
  `ValueFollowedIff` exactly when the reader keeps in step.
- The size guard of the buffer readers is meant to bound the size by the capacity, but accepts every non-negative size
  (`OversizedIsAccepted`, `SizeGuardIff`, `SkipGuardIff`).
- A playback rate of zero is accepted and makes the shown time jump (`ZeroRateJumps`, `RateChangeKeepsTimeIff`), and
  the next rate change then loses the anchor (`ZeroRateLosesAnchor`, `RateChangeKeepsAnchorIff`). A pause without the
  wait flag does not hold the time (`PauseDoesNotHold`, `ResumeMovesTimeIff`); the flag is missing only when the
  clock was told not to preroll (`PrerollKeepsFlag`).
- In variable-size mode the pool can allocate twice for one request and lose the first block (`LeakingAttempt`; exact
  condition `Leaks` in `AcquireStep`). A failed Init keeps the blocks it got, so a retry can exceed the limit
  (`RetriedInitExceedsLimit`, `InitKeepsInvIff`).
- The loader of a package is moved into the first plugin it registers, so erasing by loader keeps the others
  (`SecondPluginOutlivesItsLoader`, `PackageIsErasedIff`).
- Linking a port that is already linked elsewhere breaks the symmetry of links (`RelinkBreaksSymmetry`, `LinkPorts`), and
  linking a chain does so across pipelines (`LinkAcrossBreaksSymmetry`, `LinkPair`).
- Waiters on one id share one registration, and a waiter that leaves, or a wait that refuses to start, can take it from
  the others (`SecondWaiterIsStranded`, `TimeoutStrandsOther`; exactly when it does not: `WaitersStayRegisteredIff`,
  `RefusalKeepsWaitersIff`). Those left are out of reach until the id is waited for again (`StrandedUntilNextWait`).

## Model

| member | source | states |
|---|---|---|
| BufferQueueInvariant.StepKeepsInv | src/buffer/avbuffer_queue/avbuffer_queue.cpp:154-590 | every section keeps the three containers in agreement: the free list holds exactly the released ids, the dirty list exactly the returned ids, each once, the free list in capacity order, every entry under its buffer's own id, no marked buffer queued |
| BufferQueueInvariant.After | src/buffer/avbuffer_queue/avbuffer_queue.cpp:154-590 | the agreement holds after every interleaving of sections |
| BufferQueueInvariant.InsertKeepsInv | src/buffer/avbuffer_queue/avbuffer_queue.cpp:326-336 | inserting a released buffer keeps the free list sorted, duplicate-free and complete |
| BufferQueueInvariant.DeleteKeepsInv | src/buffer/avbuffer_queue/avbuffer_queue.cpp:224-254 | a deletion of any count keeps the agreement |
| BufferQueueInvariant.ForcedDetachIff | src/buffer/avbuffer_queue/avbuffer_queue.cpp:494-500 | the forced detach keeps the agreement if and only if the id is in neither list |
| BufferQueueProperties.FirstFitIsBestFit | src/buffer/avbuffer_queue/avbuffer_queue.cpp:154-174 | first fit hands out a fitting free buffer of least capacity, else the free buffer of least capacity |
| BufferQueueProperties.RequestHands | src/buffer/avbuffer_queue/avbuffer_queue.cpp:288-324 | every successful request hands out a requested, unmarked buffer in neither list whose stored configuration serves the request; with free buffers about, exactly the chosen one is reused, or sacrificed and replaced |
| BufferQueueProgress.RequestBeginServedIff | src/buffer/avbuffer_queue/avbuffer_queue.cpp:288-323 | a request is served if and only if its type suits and a free buffer fits, or one can be made in place of a free one or below the queue size; it waits if and only if its type suits, nothing is free and the queue is full; every status has its exact condition |
| BufferQueueProgress.RequestResumeServedIff | src/buffer/avbuffer_queue/avbuffer_queue.cpp:312-323 | after the wait, served under the same condition, given up if and only if nothing is free and the queue is still full |
| BufferQueueProgress.FirstRequestIsServed | src/buffer/avbuffer_queue/avbuffer_queue.cpp:308-323 | a new queue of size 1 serves its first request and lets the second one wait |
| BufferQueueProgress.PushSucceedsIff | src/buffer/avbuffer_queue/avbuffer_queue.cpp:357-381 | exactly when a push succeeds, with which status it is refused otherwise, and that a refusal changes nothing |
| BufferQueueProgress.ReturnSucceedsIff | src/buffer/avbuffer_queue/avbuffer_queue.cpp:401-429 | the same for a return, and where the buffer is queued |
| BufferQueueProgress.AcquireSucceedsIff | src/buffer/avbuffer_queue/avbuffer_queue.cpp:542-554 | an acquire succeeds if and only if some buffer is returned, and takes the longest queued one |
| BufferQueueProgress.ReleaseSucceedsIff | src/buffer/avbuffer_queue/avbuffer_queue.cpp:556-574 | a release succeeds if and only if the buffer is acquired or attached |
| BufferQueueProgress.DetachSucceedsIff | src/buffer/avbuffer_queue/avbuffer_queue.cpp:506-533 | an unforced detach succeeds if and only if the buffer is requested or acquired |
| BufferQueueProgress.AttachSucceedsIff | src/buffer/avbuffer_queue/avbuffer_queue.cpp:459-492 | an attach is admitted if and only if its id is new, its type suits, and there is room or enough queued buffers to make room |
| BufferQueueProgress.BufferGoesRound | src/buffer/avbuffer_queue/avbuffer_queue.cpp:357-583 | a requested buffer is pushed, returned, acquired and released without a refusal and is free again |
| BufferQueueProgress.RunKeepsType | src/buffer/avbuffer_queue/avbuffer_queue.cpp:264-272 | over every run, a memory type once fixed never changes |
| BufferQueueProgress.StepKeepsType | src/buffer/avbuffer_queue/avbuffer_queue.cpp:264-272 | every accepted request or attach fixes its own type |
| BufferQueueProgress.DeletionOrder | src/buffer/avbuffer_queue/avbuffer_queue.cpp:224-254 | a deletion takes the smallest free buffers first, the longest queued dirty ones only without a free one, and marks the lowest ids only when both lists are empty |
| AVBufferCommon.CreatedServesRequest | src/buffer/avbuffer/avbuffer.cpp:30-64 | a buffer created for a request satisfies `operator<=` for that request |
| AVBufferCommon.CreatedConfigIff | src/buffer/avbuffer/avbuffer.cpp:30-64 | exactly which configurations a buffer can be created for, and the configuration it gets |
| AVBufferCommon.MemoryServesIff | src/buffer/avbuffer/avbuffer_common.cpp:82-96 | a block of memory serves exactly the requests of its type up to capacity and alignment slack, under its own flag or when it is read-write |
| AVBufferCommon.SurfaceServesIff | src/buffer/avbuffer/avbuffer_common.cpp:97-104 | surfaces serve each other if and only if they agree in everything but the timeout |
| BufferQueueProperties.RequestCount | src/buffer/avbuffer_queue/avbuffer_queue.cpp:309-324 | a request never leaves more cached buffers than the larger of the queue size and the count before |
| BufferQueueProperties.AttachBelowCapacity | src/buffer/avbuffer_queue/avbuffer_queue.cpp:488-491 | an attach below capacity adds its buffer and evicts nothing |
| BufferQueueProperties.AttachAtCapacity | src/buffer/avbuffer_queue/avbuffer_queue.cpp:473-487 | an admitted attach at or above capacity evicts only free and dirty buffers and leaves exactly the queue size cached |
| BufferQueueProperties.RunKeepsBounds | src/buffer/avbuffer_queue/avbuffer_queue.cpp:288-504 | over every run without a shrink, neither the cached nor the unmarked count outgrows the queue size |
| BufferQueueShrink.ShrinkLimitsUnmarked | src/buffer/avbuffer_queue/avbuffer_queue.cpp:122-139 | from a settled queue (nothing pending, at most `size_` cached) a shrink to n leaves at most n unmarked buffers |
| BufferQueueShrink.ShrinkReachesIff | src/buffer/avbuffer_queue/avbuffer_queue.cpp:122-139 | from any queue, a shrink to n leaves at most n unmarked buffers if and only if all are deleted or marked, or the unmarked buffers and those marked a second time fit the old size |
| BufferQueueShrink.ShrinkTwiceLeavesTooMany | src/buffer/avbuffer_queue/avbuffer_queue.cpp:246-253 | three requested buffers: shrinking to 2 and then to 1 leaves two unmarked |
| BufferQueueShrink.ShrinkHoldsOverRuns | src/buffer/avbuffer_queue/avbuffer_queue.cpp:122-139 | after a shrink that reaches its target, the unmarked count stays within the queue size until the next shrink |
| BufferQueueShrink.DeleteUnmarked | src/buffer/avbuffer_queue/avbuffer_queue.cpp:224-254 | from any queue, a deletion of `count` leaves no unmarked buffer or `count` fewer, plus one for every buffer it marks a second time |
| BufferQueueProperties.DeleteCount | src/buffer/avbuffer_queue/avbuffer_queue.cpp:228-244 | the number of buffers a deletion drops from the map is that of the free and dirty buffers it counts |
| BufferQueueProperties.MarkedOnlyLeaves | src/buffer/avbuffer_queue/avbuffer_queue.cpp:366-370 | a marked buffer is queued nowhere, never changes again, and any successful push, return, release or detach of it erases it |
| BufferQueueShrink.LateShrinkDropsEverything | src/buffer/avbuffer_queue/avbuffer_queue.cpp:132-136 | a shrink that finds the queue smaller than its target empties both lists and marks every remaining buffer |
| BufferQueueShrink.ShrinkIsExactIff | src/buffer/avbuffer_queue/avbuffer_queue.cpp:122-139 | with nothing pending, the locked part of a shrink gives up exactly as many buffers as the size goes down by if and only if it does not find the queue smaller than its target |
| BufferQueueShrink.LateShrinkInterleaving | src/buffer/avbuffer_queue/avbuffer_queue.cpp:122-139 | two threads shrink three free buffers to 1 and to 2; in that order no buffer is left in a queue of size 2 |
| BufferQueueProperties.UnlistenedAttachLeavesDanglingId | src/buffer/avbuffer_queue/avbuffer_queue.cpp:494-500 | a concrete attach after which the dirty list holds an id that is not cached |
| BufferQueueProperties.RunIsFifo | src/buffer/avbuffer_queue/avbuffer_queue.cpp:401-554 | over every run the dirty list is a suffix of the history of returned buffers, the acquired buffers are an in-order subsequence of the rest, and without evictions acquired followed by dirty is the history |
| BufferQueueProperties.StepKeepsOrder | src/buffer/avbuffer_queue/avbuffer_queue.cpp:176-183 | each section keeps that order, and loses no returned buffer unless it evicts |
| BufferQueueLifecycle.StepIsLawful | src/buffer/avbuffer_queue/avbuffer_queue.cpp:122-583 | every section moves every buffer along released, requested or attached, pushed, returned, acquired, released only, changes its stored configuration only at a reuse or a filled return, and removes, brings and marks buffers only as listed per operation |
| BufferQueueLifecycle.HolderHasItAlone | src/buffer/avbuffer_queue/avbuffer_queue.cpp:122-583 | over every interleaving in which no call names it, a buffer that somebody holds keeps its place and state and is given out to nobody else |
| BufferQueue.AVBufferQueueImpl.constructor | src/buffer/avbuffer_queue/avbuffer_queue.cpp:109-115 | a new queue is empty and consistent, its size cut to the maximum |
| BufferQueue.AVBufferQueueImpl.PopFromFreeBufferList | src/buffer/avbuffer_queue/avbuffer_queue.cpp:154-174 | takes exactly the first fitting id, else the head, out of the free list |
| BufferQueue.AVBufferQueueImpl.InsertFreeBufferInOrder | src/buffer/avbuffer_queue/avbuffer_queue.cpp:326-336 | inserts before the first other id of at least the same capacity |
| BufferQueue.AVBufferQueueImpl.DeleteBuffers | src/buffer/avbuffer_queue/avbuffer_queue.cpp:224-254 | the three loops delete free heads, then dirty heads, then mark the lowest ids |
| BufferQueue.AVBufferQueueImpl.CheckConfig | src/buffer/avbuffer_queue/avbuffer_queue.cpp:264-272 | the memory type is fixed by the first accepted configuration |
| BufferQueue.AVBufferQueueImpl.AllocBuffer | src/buffer/avbuffer_queue/avbuffer_queue.cpp:185-201 | caches a new released buffer, or changes nothing |
| BufferQueue.AVBufferQueueImpl.RequestReuseBuffer | src/buffer/avbuffer_queue/avbuffer_queue.cpp:203-222 | reuses the popped buffer, or replaces it by a new one |
| BufferQueue.AVBufferQueueImpl.RequestBufferBegin | src/buffer/avbuffer_queue/avbuffer_queue.cpp:298-310 | the request before the wait, on the fields, refines the step and keeps the agreement |
| BufferQueue.AVBufferQueueImpl.RequestBufferResume | src/buffer/avbuffer_queue/avbuffer_queue.cpp:312-324 | the request after the wait, likewise |
| BufferQueue.AVBufferQueueImpl.CancelBuffer | src/buffer/avbuffer_queue/avbuffer_queue.cpp:338-355 | only a requested or pushed buffer goes back to the free list |
| BufferQueue.AVBufferQueueImpl.PushBufferLocked | src/buffer/avbuffer_queue/avbuffer_queue.cpp:360-381 | the locked part of a push refines its step and keeps the agreement |
| BufferQueue.AVBufferQueueImpl.PushBuffer | src/buffer/avbuffer_queue/avbuffer_queue.cpp:357-392 | a whole push: the broker listener gets the buffer, or it is returned at once; status and state in every case |
| BufferQueue.AVBufferQueueImpl.ReturnBufferLocked | src/buffer/avbuffer_queue/avbuffer_queue.cpp:403-429 | the locked part of a return refines its step and keeps the agreement |
| BufferQueue.AVBufferQueueImpl.AcquireBuffer | src/buffer/avbuffer_queue/avbuffer_queue.cpp:542-554 | hands out the head of the dirty list |
| BufferQueue.AVBufferQueueImpl.ReleaseBuffer | src/buffer/avbuffer_queue/avbuffer_queue.cpp:556-583 | puts an acquired or attached buffer back, or erases it when marked |
| BufferQueue.AVBufferQueueImpl.DetachBuffer | src/buffer/avbuffer_queue/avbuffer_queue.cpp:506-527 | erases the entry, unforced only in the requested and acquired states |
| BufferQueue.AVBufferQueueImpl.SetQueueSize | src/buffer/avbuffer_queue/avbuffer_queue.cpp:122-139 | refuses sizes out of range or unchanged, grows freely, shrinks by deletion |
| BufferQueue.AVBufferQueueImpl.AttachBufferLocked | src/buffer/avbuffer_queue/avbuffer_queue.cpp:459-492 | the locked part of an attach refines its step and keeps the agreement |
| BufferQueue.AVBufferQueueImpl.AttachBuffer | src/buffer/avbuffer_queue/avbuffer_queue.cpp:453-504 | the queue is consistent after an attach if and only if it is not an admitted filled one, with data or empty at the end of the stream, that finds neither listener; where the buffer is afterwards |
| KahnSort.CompleteIffAcyclic | engine/pipeline/core/pipeline_core.cpp:276-297 | an order that respects the links and is stuck contains every node if and only if the graph has no cycle |
| KahnSort.Visit | engine/pipeline/core/pipeline_core.cpp:285-290 | in-degrees go down by the links of the visited node, never below zero, and exactly the nodes that reach zero are pushed |
| KahnSort.Sort | engine/pipeline/core/pipeline_core.cpp:282-292 | the loop ends on every closed graph, places no node twice, places every node behind its predecessors, and leaves out only nodes that wait for nodes left out |
| PipelineGraph.InDegreeIsPreCount | engine/pipeline/core/pipeline_core.cpp:260-266 | on symmetric links the number of linked in-ports is the number of links into the filter, so the counters start as true in-degrees |
| PipelineCoreModel.PipelineCore.ConstructGraph | engine/pipeline/core/pipeline_core.cpp:256-273 | builds the link graph, the in-degrees and the stack of filters without predecessors |
| PipelineCoreModel.PipelineCore.ReorderFilters | engine/pipeline/core/pipeline_core.cpp:276-297 | without a cycle the filters are permuted so that every filter precedes its successors; with a cycle they are left alone |
| PipelineCoreModel.PipelineCore.Prepare | engine/pipeline/core/pipeline_core.cpp:36-53 | without a cycle a filter is prepared only after all filters it feeds; the walk stops at the first failure |
| PipelineCoreModel.LaterIsVisited | engine/pipeline/core/pipeline_core.cpp:42-47 | walking an ordered list backwards visits downstream filters first |
| PipelineCoreModel.PipelineCore.RemoveFilterChain | engine/pipeline/core/pipeline_core.cpp:178-195 | ends on every symmetric graph; records exactly the filters reachable from the first; afterwards exactly the links that touch none of them are left |
| PipelineCoreModel.WalkAdvances | engine/pipeline/core/pipeline_core.cpp:185-193 | one visit keeps the walk's invariant and lowers (filters with an in-link, queue entries without one) |
| PipelineCoreModel.WalkEnds | engine/pipeline/core/pipeline_core.cpp:178-195 | when the queue is empty the recorded filters are those reachable, and no link touches them |
| PipelineCoreModel.PipelineCore.RemoveFilter | engine/pipeline/core/pipeline_core.cpp:167-176 | drops exactly the one filter and keeps the order of the others |
| PipelineCoreModel.PipelineCore.RemoveRecorded | engine/pipeline/core/pipeline_core.cpp:110-112 | drops exactly the recorded filters, however often recorded, and keeps the order |
| PipelineCoreModel.KeepMembers | engine/pipeline/core/pipeline_core.cpp:167-176 | what is left are exactly the filters that were not dropped, in the old order |
| PipelinePorts.UnlinkPrevFilters | engine/pipeline/core/filter_base.cpp:90-99 | cuts every link into the filter at both ends, no other link, and keeps links symmetric |
| PipelinePorts.NextIsLinked | engine/pipeline/core/filter_base.cpp:101-118 | a filter's next filters are exactly its successors in the link relation |
| PipelinePorts.Filter.GetNextFilters | engine/pipeline/core/filter_base.cpp:101-118 | the filters behind the linked out-ports, in port order |
| PipelinePorts.Filter.GetPreFilters | engine/pipeline/core/filter_base.cpp:120-137 | the filters before the linked in-ports, in port order |
| PipelinePorts.OutPort.Connect | engine/pipeline/core/port.cpp:107-134 | links only ports of one pipeline |
| PipelinePorts.LinkPorts | engine/pipeline/core/pipeline_core.cpp:209-214 | linking keeps links symmetric if and only if each port was free or already linked to the other |
| PipelinePorts.RelinkBreaksSymmetry | engine/pipeline/core/pipeline_core.cpp:209-214 | linking an out-port to a second in-port leaves the first one pointing back at it |
| PipelinePorts.LinkPair | engine/pipeline/core/pipeline_core.cpp:203-204 | one link of a chain, without a look at the out-port's answer: links stay symmetric if and only if, within a pipeline, both ports were free or linked to each other, or else the out-port was linked to it before |
| PipelinePorts.LinkAcrossBreaksSymmetry | engine/pipeline/core/pipeline_core.cpp:203-204 | across two pipelines the in-port points at an out-port that does not know it |
| PipelinePorts.LinkFilters | engine/pipeline/core/pipeline_core.cpp:197-207 | free default ports of filters of one pipeline are linked in a chain, at both ends, and links stay symmetric |
| CapabilityValues.CheckMeets | engine/pipeline/core/compatible_check.cpp:345-363 | on well-typed values whose differences fit, a check succeeds exactly when the two sets meet, and admits exactly the intersection |
| CapabilityValues.CheckChoosesFirst | engine/pipeline/core/compatible_check.cpp:234-274 | of the common values with a list, the first of the list comes first, of the second list when there are two |
| CapabilityValues.CheckChoosesLeast | engine/pipeline/core/compatible_check.cpp:178-232 | without a list, the least common value comes first |
| CapabilityValues.CheckShape | engine/pipeline/core/compatible_check.cpp:213-274 | a result that is a list has several values, and one that is an interval two different ends |
| CapabilityValues.IllTypedIsRefused | engine/pipeline/core/compatible_check.cpp:294-363 | a value of another type, or an interval on an enumeration, never passes a check, on either side |
| CapabilityValues.KeyTypes | engine/pipeline/core/compatible_check.cpp:103-116 | which keys hold 32-bit numbers, 64-bit numbers and enumerations, and which allow intervals |
| CapabilityValues.IDCapabilityCheck | engine/pipeline/core/compatible_check.cpp:234-253 | keeps exactly the listed values between the given ends, in list order, as one value or a list |
| CapabilityValues.DDCapabilityCheck | engine/pipeline/core/compatible_check.cpp:255-274 | keeps exactly the values of the first list that match one of the second, in order |
| CapabilityValues.FixedPairIff | engine/pipeline/core/compatible_check.cpp:178-187 | two fixed values are intersected correctly if and only if they are equal or their difference is no multiple of 2^32 |
| CapabilityValues.BitratesApartPassForEqual | engine/pipeline/core/compatible_check.cpp:55-58 | two bitrates 2^32 apart pass for equal |
| CapabilityValues.WideIntervalRejectsInside | engine/pipeline/core/compatible_check.cpp:189-200 | an interval wider than 2^31 rejects a value between its ends |
| CapabilityValues.FixedInIntervalOnArc | engine/pipeline/core/compatible_check.cpp:189-200 | for every interval-typed key and any two ends, a fixed value is accepted if and only if it lies on the shorter arc between the ends, on a circle of 2^32 |
| CapabilityValues.FixedInNarrowIntervalIff | engine/pipeline/core/compatible_check.cpp:189-200 | for every interval-typed key and an interval narrower than 2^31, a value is judged rightly if and only if it is inside, or off the arc |
| CapabilityValues.FixedInIntervalIff | engine/pipeline/core/compatible_check.cpp:189-200 | for keys of 32-bit values, every fixed value is judged rightly against an interval if and only if the interval is narrower than 2^31 |
| CapabilityValues.NoWideKeyIntervalIsExact | engine/pipeline/core/compatible_check.cpp:189-200 | for 64-bit keys, every interval has a value that is judged wrongly |
| CapabilityValues.NarrowIntervalAcceptsOutside | engine/pipeline/core/compatible_check.cpp:189-200 | a bitrate of 2^32 + 5 passes for one between 0 and 10 |
| CapabilityValues.ReversedIntervalRejectsList | engine/pipeline/core/compatible_check.cpp:234-253 | an interval from 10 down to 5 admits 7 alone but not in a list |
| CapabilityValues.ListNeedsOrderedInterval | engine/pipeline/core/compatible_check.cpp:234-253 | against a list with a value between the ends, the check is right if and only if the interval is given in order |
| CapabilityMerge.MergeCapabilityKeys | engine/pipeline/core/compatible_check.cpp:365-399 | the two loops compute the key-by-key merge, and nothing when some key clashes |
| CapabilityMerge.CapabilityValueCheck | engine/pipeline/core/compatible_check.cpp:345-363 | the dispatch on the kinds of the two values |
| CapabilityMerge.MergeMeaning | engine/pipeline/core/compatible_check.cpp:365-399 | a merge succeeds if and only if some assignment suits both capabilities, and then admits exactly the assignments that suit both |
| CapabilityMerge.MergeCommutes | engine/pipeline/core/compatible_check.cpp:365-399 | merging in either order succeeds alike and admits the same assignments |
| CapabilityMerge.MergeThree | engine/pipeline/core/compatible_check.cpp:365-399 | merging three in a row succeeds if and only if the three meet, and admits what all three admit |
| CapabilityMerge.MergeAssociates | engine/pipeline/core/compatible_check.cpp:365-399 | both groupings of a merge of three succeed alike and admit the same assignments |
| CapabilityMerge.MergeKeepsOthers | engine/pipeline/core/compatible_check.cpp:368-397 | a key that only one side has is kept as it is; of an unknown key that both have, the second value is |
| CapabilityMerge.SubsetMimeReflexiveIff | engine/pipeline/core/compatible_check.cpp:127-158 | a MIME string is contained in itself if and only if it has the form xx/xxx |
| CapabilityMerge.SubsetMimeTransitive | engine/pipeline/core/compatible_check.cpp:127-158 | MIME containment is transitive |
| CapabilityMerge.SubsetMimeIff | engine/pipeline/core/compatible_check.cpp:127-158 | strings taken apart at the slash are contained if and only if the types agree but for case, and the universe is open behind the slash or agrees there too |
| CapabilityMerge.SubsetMimeStar | engine/pipeline/core/compatible_check.cpp:127-143 | the universe "*" takes exactly the well-formed strings; nothing else without the form takes part |
| CapabilityMerge.MimeFormIff | engine/pipeline/core/compatible_check.cpp:129-133 | a string is well-formed if and only if it can be taken apart at a slash behind something |
| CapabilityMerge.EqIgnoreCaseIsEquivalence | engine/pipeline/core/compatible_check.cpp:119-125 | the comparison overlooks case and nothing else |
| CapabilityMerge.MergeMime | engine/pipeline/core/compatible_check.cpp:401-413 | a merge succeeds if and only if the MIME strings are contained and the keys merge, and keeps the origin's MIME |
| CapabilityMerge.OtherSubtypeIsRefused | engine/pipeline/core/compatible_check.cpp:153-156 | "audio/mpeg" does not merge with "audio/aac" |
| CapabilityMerge.MergeCapability | engine/pipeline/core/compatible_check.cpp:401-413 | merges under MIME containment, else leaves an empty result |
| CapabilityMerge.ApplyCapabilitySet | engine/pipeline/core/compatible_check.cpp:415-424 | succeeds if and only if some capability of the set merges; the first one that does decides |
| CapabilityMerge.ExtractAdmitted | engine/pipeline/core/compatible_check.cpp:426-444 | the fixed value extracted from a well-typed value is one that it admits |
| CapabilityMerge.MergeMetaWithCapability | engine/pipeline/core/compatible_check.cpp:462-492 | the loops compute the negotiated metadata |
| CapabilityMerge.MergeMetaNegotiates | engine/pipeline/core/compatible_check.cpp:462-492 | every negotiated value is admitted by the metadata and by the capability; MIME is the capability's; every other entry is unchanged |
| CapabilityMerge.MergeMetaSucceedsIff | engine/pipeline/core/compatible_check.cpp:462-477 | negotiation succeeds if and only if the capability's MIME is well-formed and some assignment suits both sides |
| CapabilityMerge.NegotiatedIsChosen | engine/pipeline/core/compatible_check.cpp:426-444 | the value fixed for a shared key is the one that its check puts first |
| CapabilityMerge.MergeMetaIdempotent | engine/pipeline/core/compatible_check.cpp:462-492 | merging the result with the same capability again succeeds and changes nothing |
| CapabilityMerge.MetaOnlyEntryKeptIff | engine/pipeline/core/compatible_check.cpp:479-490 | an entry that only the metadata has is kept if and only if it is one value |
| CapabilityMerge.MetaOnlyIntervalIsReplaced | engine/pipeline/core/compatible_check.cpp:479-490 | a range of sample rates that the capability does not mention comes back as its lower end |
| MediaClock.MediaSyncManager.PauseClock | engine/pipeline/core/media_sync_manager.cpp:181-199 | freezes the clipped media time, once |
| MediaClock.MediaSyncManager.ResumeClock | engine/pipeline/core/media_sync_manager.cpp:155-171 | re-anchors at the frozen time when the wait flag is set |
| MediaClock.MediaSyncManager.SetPlaybackRate | engine/pipeline/core/media_sync_manager.cpp:65-81 | refuses negative rates, else re-anchors at the current media time |
| MediaClock.MediaSyncManager.SeekTo | engine/pipeline/core/media_sync_manager.cpp:201-217 | accepted exactly within a known range; drops the anchor |
| MediaClock.MediaSyncManager.UpdateTimeAnchor | engine/pipeline/core/media_sync_manager.cpp:279-300 | a registered supplier of no lower priority sets the anchor; an anchor within 50 ms of the target ends a seek |
| MediaClock.MediaSyncManager.GetMediaTimeNow | engine/pipeline/core/media_sync_manager.cpp:312-327 | the reading: seek target, frozen time, or clipped running time |
| MediaClock.NoJump | engine/pipeline/core/media_sync_manager.cpp:155-199 | no pause, resume or rate change moves the shown time, and the clock stays ready |
| MediaClock.PauseHolds | engine/pipeline/core/media_sync_manager.cpp:181-199 | a pause holds media and clock time from then on |
| MediaClock.ResumeRuns | engine/pipeline/core/media_sync_manager.cpp:155-171 | a resume lets the shown time run on from where it was held, at the rate set |
| MediaClock.ResumeForgetsPause | engine/pipeline/core/media_sync_manager.cpp:155-171 | a resume forgets the pause and leaves rate, bounds and seek alone |
| MediaClock.RateTakesEffect | engine/pipeline/core/media_sync_manager.cpp:65-81 | a new rate takes effect at once from the media time reached; a negative one changes nothing |
| MediaClock.RateIsSet | engine/pipeline/core/media_sync_manager.cpp:65-81 | anchored or not, the rate is set and nothing but the anchor is touched |
| MediaClock.RateWaitsForResume | engine/pipeline/core/media_sync_manager.cpp:65-81 | a rate set while paused takes effect at the resume |
| MediaClock.ClipIsNearest | engine/pipeline/core/media_sync_manager.cpp:242-254 | clipping moves a time to the nearest bound, and not at all between the bounds |
| MediaClock.UnstartedShowsZero | engine/pipeline/core/media_sync_manager.cpp:318-321 | a clock that has never run shows 0 |
| MediaClock.ReadingMonotone | engine/pipeline/core/media_sync_manager.cpp:301-327 | between operations the shown time never decreases |
| MediaClock.RunNeverGoesBack | engine/pipeline/core/media_sync_manager.cpp:65-199 | over every run of pauses, resumes and rate changes the shown time never goes back |
| MediaClock.RunTrails | engine/pipeline/core/media_sync_manager.cpp:65-199 | after k re-anchorings the anchor trails the exact integral of the rate by less than k ticks and never leads it |
| MediaClock.ReadingLag | engine/pipeline/core/media_sync_manager.cpp:301-327 | an unclipped reading lags the exact integral by at least 0 and less than k + 1 ticks |
| MediaClock.MapBack | engine/pipeline/core/media_sync_manager.cpp:339-349 | mapping a reading back to system time errs by less than 1/rate + 1 |
| MediaClock.RateChangeKeepsTimeIff | engine/pipeline/core/media_sync_manager.cpp:65-81 | a rate change leaves the shown time alone if and only if the new rate is above the zero threshold, the clock is paused, or it already shows what a clock without anchor shows |
| MediaClock.RateChangeKeepsAnchorIff | engine/pipeline/core/media_sync_manager.cpp:65-81 | a rate change of an anchored clock keeps an anchor if and only if the rate until then is above the zero threshold |
| MediaClock.ResumeMovesTimeIff | engine/pipeline/core/media_sync_manager.cpp:155-171 | a pause and a resume move the shown time if and only if the wait flag is not set and a tick visible between the bounds went by |
| MediaClock.ZeroRateLosesAnchor | engine/pipeline/core/media_sync_manager.cpp:301-306 | after a zero rate, the next rate change leaves no anchor |
| MediaClock.ZeroRateJumps | engine/pipeline/core/media_sync_manager.cpp:65-81 | a zero rate turns a reading of 110 into the "no time" value |
| MediaClock.PauseDoesNotHold | engine/pipeline/core/media_sync_manager.cpp:155-171 | told not to preroll, a clock paused at a reading of 110 shows 150 when it is resumed |
| MediaClock.PrerollKeepsFlag | engine/pipeline/core/media_sync_manager.cpp:134-171 | as long as suppliers are to preroll, every operation keeps the wait flag set while the clock runs |
| MediaClock.SeekHoldsTarget | engine/pipeline/core/media_sync_manager.cpp:312-317 | while the clock seeks and no anchor comes near the target, every reading is the target |
| MediaClock.SeekAcceptedIff | engine/pipeline/core/media_sync_manager.cpp:205-210 | every target within a known range is accepted, every other one is refused and changes nothing |
| MediaClock.SeekShowsTarget | engine/pipeline/core/media_sync_manager.cpp:201-217 | from an accepted seek on, over every run without an anchor within 51 ms, the clock shows exactly the target |
| MediaClock.SeekEndsAtAnchor | engine/pipeline/core/media_sync_manager.cpp:201-300 | the next anchor near the target ends the seek whatever its priority, and the clock runs on from it |
| MediaClock.AnchorTakenIff | engine/pipeline/core/media_sync_manager.cpp:279-291 | an anchor is taken over if and only if its supplier is registered and of no lower priority |
| MediaClock.NearTargetIff | engine/pipeline/core/media_sync_manager.cpp:292-295 | near means less than 51 ms away |
| MediaClock.MediaSyncManager.GetClockTimeNow | engine/pipeline/core/media_sync_manager.cpp:329-338 | the system time, or that of the pause |
| MediaClock.MediaSyncManager.GetClockTime | engine/pipeline/core/media_sync_manager.cpp:350-362 | media time mapped to system time over the anchor |
| MetaCodec.ThroughInt32 | interface/inner_api/meta/any.h:123-129 | casting an enumeration of at most four bytes to int32 and back loses nothing, unsigned ones included |
| MetaCodec.ThroughInt64 | interface/inner_api/meta/any.h:139-145 | likewise for eight bytes through int64 |
| MetaCodec.ValueFollowedIff | interface/inner_api/meta/any.h:436-468 | for every value that can be marshalled, the reader gives the value that comes back and stops exactly behind it, whatever follows, if and only if the kinds of value and default agree |
| MetaCodec.UnknownCodeIsRefusedIff | src/meta/any.cpp:136-140 | an unknown type code leaves operand and parcel alone if and only if the operand is no enumeration, or is what an empty read gives and no integer follows |
| MetaCodec.UnknownCodeTakesNextInteger | interface/inner_api/meta/any.h:460-468 | over an enumeration, the unknown code 7 takes the integer behind it |
| MetaCodec.MetaRoundTrip | src/meta/meta.cpp:332-375 | reading written metadata whose entries the reader can follow gives, entry by entry, the values that come back, and stops exactly at the tail |
| MetaCodec.FaithfulMetaRoundTrip | src/meta/meta.cpp:332-375 | metadata of base values and of enumerations of the registered type comes back unchanged, for any tail |
| MetaCodec.MetaUnchangedIff | src/meta/meta.cpp:332-375 | whatever the writer accepts comes back unchanged if and only if every foreign value equals its tag's default and every enumeration has the type of its tag's default; then the reader stops at the tail |
| MetaCodec.ParsedAreRestorable | src/meta/meta.cpp:363-373 | from any parcel at all, only base values, defaults and enumerations of the default's type are stored |
| MetaCodec.UnregisteredEnumerationLosesPlace | interface/inner_api/meta/any.h:460-468 | an enumeration under a tag that is not registered comes back as the empty string, and the reader stops before its integer |
| MetaCodec.UnsignedEntryIsLost | src/meta/meta.cpp:298-299 | an unsigned 64-bit file size is written without a payload and comes back as the default |
| MetaCodec.GuardRefusesIff | src/meta/meta.cpp:357-361 | the reader refuses exactly the maps with more entries than the parcel's raw data capacity |
| MetaCodec.CountAcceptedIff | src/meta/meta.cpp:356-361 | any count is accepted if and only if it is not negative and within the capacity; else no entry is taken |
| MetaCodec.WireFormat | src/meta/any.cpp:50-86 | the type codes, and what stands behind them |
| MetaCodec.EnumerationWireFormat | interface/inner_api/meta/any.h:436-458 | an enumeration of eight bytes travels as a long integer, every narrower one as a short one |
| MetaCodec.TruncatedReadsZero | src/meta/any.cpp:95-135 | a parcel that ends behind a base code reads as zero or empty |
| MetaCodec.BaseTypesToParcel | src/meta/any.cpp:50-86 | writes code and payload for the seven base types, else the invalid code and failure |
| MetaCodec.AnyToParcel | interface/inner_api/meta/any.h:436-458 | fails exactly for types of more than eight bytes |
| MetaCodec.AnyFromParcel | src/meta/any.cpp:95-142 | on every parcel, well-formed or not, reads what the value parser reads |
| MetaCodec.MetaObject.ToParcel | src/meta/meta.cpp:332-352 | writes all entries behind their number, or leaves the target parcel untouched when one cannot be marshalled |
| MetaCodec.MetaObject.FromParcel | src/meta/meta.cpp:354-375 | on every parcel, the loop refines the metadata parser |
| AVBufferCodec.FreshReadRoundTrip | src/buffer/avbuffer/avbuffer.cpp:198-266 | a fresh buffer reads back what was written, its metadata as it comes back, and stops at the tail |
| AVBufferCodec.CameBackUnchanged | src/buffer/avbuffer/avbuffer.cpp:198-266 | what comes back is the written buffer itself if and only if all its metadata is restorable |
| AVBufferCodec.SameBufferReadAgrees | src/buffer/avbuffer/avbuffer.cpp:249-253 | a buffer that holds the memory consumes the same data and ends with the same id, times, flag, metadata, offset and size as a fresh one |
| AVBufferCodec.OtherBufferIsRefused | src/buffer/avbuffer/avbuffer.cpp:249-250 | a buffer that holds memory refuses what a buffer of another id wrote, and stays as it was |
| AVBufferCodec.HeldMemoryReadIff | src/buffer/avbuffer/avbuffer.cpp:249-253 | a buffer reads its own parcel if and only if both parts of the memory block can be passed over; else its times, flag and metadata stay |
| AVBufferCodec.UnreadableHeaderIsRefused | src/buffer/avbuffer/avbuffer.cpp:245-247 | without a readable header nothing changes |
| AVBufferCodec.UnusableMemoryLeavesId | src/buffer/avbuffer/avbuffer.cpp:254-258 | a fresh buffer that meets an unusable memory takes over the id and nothing else |
| AVBufferCodec.SurfaceTakenIff | src/buffer/avbuffer/avbuffer.cpp:225-234 | a bare surface is taken if and only if there is one and the buffer has no memory; what the buffer is then |
| AVBufferCodec.AssignedOnce | src/buffer/avbuffer/avbuffer.cpp:177-195 | no id without memory; an id once assigned is kept |
| AVBufferCodec.DecimalIsNumber | src/buffer/avbuffer/avbuffer.cpp:232-232 | the digits of a name give back the id |
| AVBufferCodec.BufferLayout | src/buffer/avbuffer/avbuffer.cpp:202-204 | where id, times, flag and the number of entries stand |
| AVBufferCodec.SkipCommonAgrees | src/buffer/avbuffer/avmemory.cpp:179-195 | skipping all but the last 8 bytes of the common block finds the written offset and size and the end of the block |
| AVBufferCodec.CommonRoundTrip | src/buffer/avbuffer/avmemory.cpp:158-177 | the full read of the common block gives back every field |
| AVBufferCodec.MemoryRoundTrip | src/buffer/avbuffer/avmemory.cpp:82-124 | creating a memory from a written one gives it back |
| AVBufferCodec.MemoryTravelsIff | src/buffer/avbuffer/avmemory.cpp:82-124 | a written memory is read if and only if it is a surface, or shared or hardware memory with an open descriptor; the type codes |
| AVBufferCodec.CommonAcceptedIff | src/buffer/avbuffer/avmemory.cpp:158-177 | a written common block is accepted if and only if none of its numbers is negative |
| AVBufferCodec.SkipAcceptedIff | src/buffer/avbuffer/avmemory.cpp:179-195 | the skipping read accepts a written block if and only if its offset is not negative, and its size is not negative or above the reader's capacity |
| AVBufferCodec.MemorylessRoundTrip | src/buffer/avbuffer/avbuffer.cpp:198-266 | a buffer without memory round-trips with id 0 and no memory |
| AVBufferCodec.HeaderRoundTrip | src/buffer/avbuffer/avbuffer.cpp:239-247 | id, times and flag round-trip in front of any rest, and metadata as it comes back |
| AVBufferCodec.SizeGuardIff | src/buffer/avbuffer/avmemory.cpp:171-173 | the full read accepts a written block if and only if its size is not negative, so it bounds the size by the capacity if and only if there is nothing to refuse |
| AVBufferCodec.OversizedIsAccepted | src/buffer/avbuffer/avmemory.cpp:171-173 | a memory of 4 bytes that claims to hold 5 is accepted |
| AVBufferCodec.SkipGuardIff | src/buffer/avbuffer/avmemory.cpp:186-191 | the skipping read accepts a written block if and only if its size is not negative, whatever the capacity |
| AVBufferObject.ReadCommonFromMessageParcel | src/buffer/avbuffer/avmemory.cpp:158-177 | on every parcel, the reads refine the full parser |
| AVBufferObject.SkipCommonFromMessageParcel | src/buffer/avbuffer/avmemory.cpp:179-195 | on every parcel, the reads refine the skipping parser |
| AVBufferObject.WriteCommon | src/buffer/avbuffer/avmemory.cpp:197-209 | writes the common block behind its length |
| AVBufferObject.CreateAVMemory | src/buffer/avbuffer/avmemory.cpp:82-124 | on every parcel, takes a bare surface, or refuses virtual and unknown types and otherwise refines the memory parser |
| AVBufferObject.AVBufferObj.GetUniqueId | src/buffer/avbuffer/avbuffer.cpp:166-196 | 0 without memory, else the next id of the process on the first call and the same id ever after |
| AVBufferIds.IdSource.Take | src/buffer/avbuffer/avbuffer.cpp:181-194 | advances the counter, which starts again after the largest 32-bit number, and puts it behind process and start time |
| AVBufferIds.IdsRepeatIff | src/buffer/avbuffer/avbuffer.cpp:176-194 | two ids of a process are equal if and only if a multiple of 2^32 - 1 ids lies between them, and no id is 0 |
| AVBufferIds.ProcessesDiffer | src/buffer/avbuffer/avbuffer.cpp:185-193 | ids of two processes that started together differ, and the low end is that of the start time |
| AVBufferObject.AVBufferObj.WriteToMessageParcel | src/buffer/avbuffer/avbuffer.cpp:198-220 | appends the whole buffer, or nothing |
| AVBufferObject.AVBufferObj.ReadFromMessageParcel | src/buffer/avbuffer/avbuffer.cpp:222-266 | on every parcel, the bare surface and each of the four other cases refine the buffer parsers |
| AVMemoryModel.AVMemory.SetSize | src/buffer/avbuffer/avmemory.cpp:231-236 | clamps into 0 .. capacity and changes no byte |
| AVMemoryModel.AVMemory.SetOffset | src/buffer/avbuffer/avmemory.cpp:243-248 | clamps into 0 .. capacity |
| AVMemoryModel.AVMemory.Write | src/buffer/avbuffer/avmemory.cpp:260-286 | every byte, the new size and the returned length, for any position; an appending write acts on the contents as an append to a bounded log |
| AVMemoryModel.AVMemory.Read | src/buffer/avbuffer/avmemory.cpp:288-312 | copies exactly the used bytes from the position on and changes no other byte of the output |
| AVMemoryModel.AppendsKeepPrefix | src/buffer/avbuffer/avmemory.cpp:260-286 | any appending writes leave exactly the first `capacity` bytes of the concatenation |
| AVMemoryModel.ReturnsAddUp | src/buffer/avbuffer/avmemory.cpp:260-286 | the returned lengths sum to what the contents gained |
| AVMemoryModel.PiecesReassemble | src/buffer/avbuffer/avmemory.cpp:288-312 | positional reads in pieces of any size put the contents together again |
| SharedMemoryPool.AcquireStep | src/common/avsharedmemorypool.cpp:104-145 | an attempt keeps the pool's invariant and hands out at least the size asked for; it loses a block if and only if `Leaks` |
| SharedMemoryPool.AcquireAnswersIff | src/common/avsharedmemorypool.cpp:104-145 | an attempt comes to a block if and only if an idle one fits, or one may be made and is; to nothing if and only if it may not |
| SharedMemoryPool.AcquireTakes | src/common/avsharedmemorypool.cpp:112-141 | the longest idle block that fits is handed out; else one is freed only in exchange, the smallest |
| SharedMemoryPool.CallerWaitsIff | src/common/avsharedmemorypool.cpp:182-195 | a caller waits if and only if it may and nothing can be made of the attempt |
| SharedMemoryPool.SizeAcceptedIff | src/common/avsharedmemorypool.cpp:147-168 | exactly which sizes are accepted in either mode |
| SharedMemoryPool.ReleaseGoesLast | src/common/avsharedmemorypool.cpp:77-102 | a block given back becomes the idle one found last; an unknown one is freed |
| SharedMemoryPool.LeakingAttempt | src/common/avsharedmemorypool.cpp:125-141 | room for two, one idle block of 10 and a request for 20: two blocks are allocated and one of them is lost |
| SharedMemoryPool.ResetStep | src/common/avsharedmemorypool.cpp:222-237 | a reset keeps the invariant and loses nothing that was not lost before |
| SharedMemoryPool.ReleaseStep | src/common/avsharedmemorypool.cpp:77-102 | a release keeps the invariant and loses nothing |
| SharedMemoryPool.RunKeepsInv | src/common/avsharedmemorypool.cpp:77-210 | over every run after one Init, busy plus idle stay within the limit; in fixed-size mode the live blocks are exactly busy plus idle, all of the fixed size |
| SharedMemoryPool.InitEstablishes | src/common/avsharedmemorypool.cpp:38-62 | a first Init establishes the invariant |
| SharedMemoryPool.InitKeepsInvIff | src/common/avsharedmemorypool.cpp:38-62 | any Init, a retry or one after a reset included, establishes the invariant if and only if the blocks found and the new ones stay within the limit and, in fixed-size mode, none was lost and all have the new size |
| SharedMemoryPool.RetriedInitExceedsLimit | src/common/avsharedmemorypool.cpp:53-57 | a failed and a repeated Init leave three blocks in a pool for two |
| SharedMemoryPool.AVSharedMemoryPool.Init | src/common/avsharedmemorypool.cpp:38-62 | preallocates up to the limit, or fails; what a failed attempt changes and what it keeps |
| SharedMemoryPool.AVSharedMemoryPool.DoAcquireMemory | src/common/avsharedmemorypool.cpp:104-145 | one pass over the idle list finds the first fit or the smallest block, and the two allocations follow |
| SharedMemoryPool.AVSharedMemoryPool.AcquireMemory | src/common/avsharedmemorypool.cpp:170-191 | the size check, the fixed size and the first round: a block, a refusal, or a wait |
| SharedMemoryPool.AVSharedMemoryPool.AcquireResumed | src/common/avsharedmemorypool.cpp:183-196 | every further round, after a wait that anything may have ended |
| SharedMemoryPool.AVSharedMemoryPool.Reset | src/common/avsharedmemorypool.cpp:222-237 | frees the idle blocks and leaves the busy ones |
| SharedMemoryPool.AVSharedMemoryPool.ReleaseMemory | src/common/avsharedmemorypool.cpp:77-102 | moves the first such busy block to the idle list, else frees it |
| SynchronizerModel.StepKeepsInv | src/osal/base/synchronizer.h:43-124 | an id is in exactly one of wait set and result map while its waiter is pending, in none otherwise; a result is the first notification since the waiter registered |
| SynchronizerModel.RunKeepsInv | src/osal/base/synchronizer.h:43-124 | the same over every interleaving |
| SynchronizerModel.ResultIsFirstSinceRegistered | src/osal/base/synchronizer.h:89-124 | a wait ends with the first notification made after it registered, and is given up only if there was none |
| SynchronizerModel.NotifyCountsIff | src/osal/base/synchronizer.h:114-124 | a notification counts if and only if its id waits; a result that is there is not replaced, and no other id is touched |
| SynchronizerModel.WaitersStayRegisteredIff | src/osal/base/synchronizer.h:89-112 | when one of m waiters leaves, with the result or without, the others stay registered if and only if there are none, or a result was there and the id registered again since |
| SynchronizerModel.RefusalKeepsWaitersIff | src/osal/base/synchronizer.h:96-101 | a wait that refuses to start leaves the waiters before it registered if and only if there are none or their result is there |
| SynchronizerModel.StrandedUntilNextWait | src/osal/base/synchronizer.h:43-124 | an id registered nowhere stays so over every run without a new wait for it; a new wait and a notification end that |
| SynchronizerModel.TimeoutStrandsOther | src/osal/base/synchronizer.h:66-72 | the first of two waiters to time out takes the registration of the other along |
| SynchronizerModel.SecondWaiterIsStranded | src/osal/base/synchronizer.h:75-87 | of two waiters, the one that does not get the result is out of reach over every run until the id is waited for again, and not longer |
| SynchronizerModel.Synchronizer.BeginWait | src/osal/base/synchronizer.h:96-101 | registers, and deregisters when the operation refuses to start |
| SynchronizerModel.Synchronizer.EndWait | src/osal/base/synchronizer.h:102-111 | takes the result, or gives the wait up |
| SynchronizerModel.Synchronizer.NotifyWaiter | src/osal/base/synchronizer.h:114-124 | moves a waiting id to the result map, ignores others |
| PluginRegistry.InsertKeepsInv | engine/plugin/core/plugin_register.cpp:73-120 | a registration keeps each list of names a duplicate-free enumeration of its table, with hardware codecs first |
| PluginRegistry.EraseRemovesExactly | engine/plugin/core/plugin_register.cpp:417-444 | erasing by loader removes exactly the matching entries, keeps the survivors unchanged and in order, and keeps the registry consistent |
| PluginRegistry.RunKeepsInv | engine/plugin/core/plugin_register.cpp:51-120 | the registry is consistent after any sequence of registrations and erasures |
| PluginRegistry.ListingIsSoftwareFirst | engine/plugin/core/plugin_register.cpp:305-316 | a codec listing names every registered plugin once, software before hardware |
| PluginRegistry.ListingIsComplete | engine/plugin/core/plugin_register.cpp:305-316 | every listing, of any type and with either preference, names every registered plugin once; with hardware preferred a codec listing puts it first |
| PluginRegistry.ListingFollowsHistory | engine/plugin/core/plugin_register.cpp:73-316 | the exact order of every listing after any sequence of registrations and erasures, from the order of the registrations that are left |
| PluginRegistry.PreferenceDecides | engine/plugin/core/plugin_register.cpp:305-316 | two decoders, listed both ways round |
| PluginRegistry.AddEntersIff | engine/plugin/core/plugin_register.cpp:51-71 | a plugin is entered if and only if rank, version, name and type allow it; the exact status; nothing else is touched |
| PluginRegistry.VersionMatchedIff | engine/plugin/core/plugin_register.cpp:130-155 | versions suit if and only if the major numbers agree and the minor one is not ahead of the core's |
| PluginRegistry.GenericSuitsEveryCore | engine/plugin/core/plugin_register.cpp:145-147 | a generic plugin suits every core |
| PluginRegistry.CodecTypes | engine/plugin/core/plugin_register.cpp:305-309 | the codecs are the audio and video decoders and encoders |
| PluginRegistry.PackageOwnsOne | engine/plugin/core/plugin_register.cpp:51-120 | however many plugins a package enters, exactly the first of them carries its loader |
| PluginRegistry.PackageIsErasedIff | engine/plugin/core/plugin_register.cpp:404-444 | erasing by its loader removes what a package entered, all of it, if and only if it entered at most one plugin |
| PluginRegistry.SecondPluginOutlivesItsLoader | engine/plugin/core/plugin_register.cpp:108-109 | of two plugins of one package, erasing by its loader keeps the second |
| PluginRegistry.PluginRegister.ListPlugins | engine/plugin/core/plugin_register.cpp:305-316 | back to front for codecs unless hardware is preferred |
| PluginRegistry.PluginRegister.DeletePlugin | engine/plugin/core/plugin_register.cpp:417-431 | the name leaves the list and the table of its own type |
| PluginRegistry.PluginRegister.EraseRegisteredPluginsByLoader | engine/plugin/core/plugin_register.cpp:432-444 | the loops over copies of the tables erase exactly the loader's plugins |
| PluginRegistry.RegisterImpl.AddPlugin | engine/plugin/core/plugin_register.cpp:51-71 | refuses invalid, mismatched and already known plugins; the loader is given away exactly when a plugin is entered |
| PluginRegistry.RegisterImpl.UpdateRegisterTableAndRegisterNames | engine/plugin/core/plugin_register.cpp:73-120 | enters the plugin in table and names |

## Left out

- `AVBufferQueueSurfaceWrapper`, the shared, surface and hardware allocators, IPC proxies, the C interface, plugin wrappers, `ffmpeg_convert` and dynamic loading rest on code that is not part of this model.
- Listener callbacks, except for whether one is installed; condition variables, except that a wait may end in any state; fairness and liveness.
- Null buffers and null filters, which every operation refuses at once.
- The disposal of a wait that times out in a request: it changes nothing and reports a timeout.
- 32-bit overflow of `capacity + align - 1` in `operator<=`. The queue takes fresh ids for granted; `AVBufferIds.IdsRepeatIff` says how long that holds.
- Growing the queue is not under the lock in the program; the check and the store are one step here. The test before the lock in a shrink is not assumed at the step, which is why the difference wraps.
- BufferQueue.AVBufferQueueImpl.SetQueueSize: the test and the locked part in one go; the step `OpShrink` covers resizes in between.
- BufferQueue.AVBufferQueueImpl.AttachBuffer: what one thread sees when no other intervenes between its sections; interleavings are covered by the runs of steps.
- KahnSort.Visit: written on index sequences; the program keeps the same numbers inside graph nodes.
- PipelineCoreModel.PipelineCore.ReorderFilters: assumes duplicate-free filters and symmetric links that stay inside them; a successor outside `filters_` would be read as index 0 by the program.
- PipelineCoreModel.PipelineCore.Prepare: a filter's own Prepare is an input; the walks of Start, Pause, Resume and Flush have the same shape and are left out.
- PipelinePorts.Filter.GetNextFilters: a port's owner is never null here, and ports are not destroyed while linked.
- PipelinePorts.LinkFilters: the empty ports that stand in for a missing default port are left out.
- CapabilityMerge.MergeMeaning: assumes known keys, values of the key's type, ordered intervals, non-empty lists and differences below 2^31; lemmas in `CapabilityValues` show what happens without the last two.
- CapabilityMerge.MergeCapabilityKeys: the keys are walked in an arbitrary order. `MetaToCapability` is left out.
- MediaClock.RunNeverGoesBack: rates are real numbers at or above the zero threshold, without rounding of `float` and `double`, and times have no upper bound. The wait flag is assumed; `ResumeMovesTimeIff` says what happens without it. Range setters, `Reset`, `ReportPrerolled` and the prerolled syncers are left out.
- MetaCodec.AnyFromParcel: a parcel is a sequence of written items, not of bytes; reading an item of another kind fails without moving, and skipping beyond the end skips what is left. The parcel's own code is not part of this model. The table of default values is an input.
- MetaCodec.MetaRoundTrip: assumes that the reader can follow every entry, which `ValueFollowedIff` characterizes; `MetaUnchangedIff` does not assume it.
- MetaCodec.MetaObject.ToParcel: writing an item never fails for lack of memory.
- AVBufferCodec.SameBufferReadAgrees: descriptors and serialized surfaces are opaque tokens.
- AVMemoryModel.AVMemory.Write: `memcpy_s` is not part of this model; whether it accepts an empty copy is a constant of unknown value, and both answers are covered.
- SharedMemoryPool.AVSharedMemoryPool.AcquireMemory: cut at its condition wait, like a request of the buffer queue. A block is given back at most once, and runs hold no second Init; `InitKeepsInvIff` says when one may follow.
- SharedMemoryPool.RunKeepsInv: that live blocks are busy or idle is stated for the fixed-size mode only, since it is false in the other one.
- SynchronizerModel.RunKeepsInv: one waiter per id, which the class does not enforce; the lemmas on several waiters do not assume it.
- PluginRegistry.RegisterImpl.AddPlugin: packages, creators, sniffers and the copied plugin information are left out; so are the empty lists that reading a missing type creates.
