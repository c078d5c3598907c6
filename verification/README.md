# A verified model of MemFabric Hybrid

MemFabric Hybrid pools the memory of many hosts and devices under one global address space. This project models
the parts of it where order, state and arithmetic decide whether data is right, and proves what those parts keep
over every input, every interleaving and every run. Code that works by updating things in place is modelled by
classes, arrays and loops, proved against value-level definitions; protocols are state machines over their steps.

- **Messages on a connection** (`HeaderImage`, `Framing`, `SendQueue`, `Receiver`, `LinkLifecycle`,
  `LinkSimulation`). A linked send queue with push-back, writes and reads cut at arbitrary points, a growing receive
  buffer. The conservation law of `Framing` says that accepted bytes are, in order, finished with, half received, on
  the wire or still queued; so what is handed up is decided by the accepted bytes alone, and the prefix law and
  completeness follow. `SendQueue` and `Receiver` carry the same rounds out on heap-allocated nodes and buffers and are
  proved to refine them. `LinkLifecycle` accounts for callbacks and for the bytes of every message, and
  `LinkSimulation` ties its steps to the linked queue.
- **The submission ring of a stream** (`Stream`). Host and device share a 2048-slot ring. The class runs the host's
  code; at every driver call the device may run any number of tasks with any outcome, and may post reports before it
  moves its head past their tasks, up to any lag. Positions are unbounded ghost counters and ring indices are their
  remainders.
- **The range pool** (`RangePool`). A best-fit allocator whose two indices are proved to hold, after every call,
  exactly the maximal gaps between the live blocks.
- **Addresses and ranks** (`VaManager`, `Reservation`, `ConnSegment`, `ReserveChunks`, `UserSegment`,
  `UserHistory`). The registry in three indices, first-fit reservation, one slab per rank, chunked device reservation,
  rank tags in addresses and the five containers that follow an imported slice.
- **Distributed algorithms** (`Barrier`, `Benchmark`, `BenchmarkRuns`, `AllReduce`, `AllReduceRuns`, `ChunkedCopy`,
  `BatchCopy`). The socket barrier and the phases built on it, the all-reduce kernel, copies through an on-chip buffer
  and the token chain of blocks. For the phases and the two kernels every schedule is shown to end, and for the kernels
  with the right memory.
- `Arithmetic` and `OrderedSets` hold shared facts about products and quotients and the order lookups of sorted maps.

Several laws hold only under a condition that the code does not test. In those cases the code is modelled as it is
and the condition is proved to be exact, or a family of runs shows the failure:

- A body over the receive limit is not skipped, so its bytes are read as headers; an empty body never becomes ready
  (`PrefixLawIff`, `OversizeBodyDesynchronises`, `AllCrossedAllReady`).
- A write that fails frees its message without a callback (`PollOutConserves`, `DroppedIsLost`,
  `ExactlyOneCallback`, `DroppedSilently`).
- A range of another memory type, or one with an overlapping local address, breaks the registry's indices
  (`AddKeepsIndices`, `CrossTypeOverlapBreaks`): the overlap test looks at one memory type and at global addresses only.
- Releasing an element of rounded size zero away from a free range files an empty range (`EmptyReleaseCanonical`,
  `EmptyReleaseBreaks`), and releasing bytes that are partly free spoils the free list (`RunReleaseIff`,
  `DoubleReleaseBreaks`).
- Removing imports can ask an empty registry for its nearest entry (`CoveredIff`, `RemoveImported`,
  `EmptyImportBreaks`).
- A remote slice announced outside the slab of its rank is recorded all the same, and host ranges are then no longer in
  the slabs of their ranks (`PlacedIff`, `ImportSlices`).
- The vector copy between two additions of the all-reduce kernel moves whole repeats of 128 elements, so the sum is
  wrong for rank counts other than 2, 4, 8, 16 and 32 (`ReducesIff`, `AllReduceIsFold`, `OtherCountsFail`). The launcher
  of the example refuses counts that are not powers of two (example/shm/AllReduce/main.cpp, line 122), so this concerns
  the kernel called directly. One rank does pass that test, and then nothing is added (`SingleRankStoresLeftover`).
- The chunk loop takes a 32-bit length and copies forwards (`CopyItemIff`, `ChunkedIsFlatIff`).
- A reservation that fails after its first chunk gives back only that chunk (`GvaReserveMemory`, `LeakIff`,
  `SecondChunkLeaks`).
- Rank 65535 has no tag (`TagRecoversIff`), and a slice index that wraps or a name that two ranks share puts the
  five containers out of step and costs a rank its entries (`ImportConsistentIff`, `SharedNameLost`, `SharedIndexLost`).
  Imports and local registrations take their indices from one 16-bit count (`CountComesRound`).
- Asking whether bytes are in range looks at the nearest slice only and adds in 64 bits, so a slice that ends after a
  later one, or bytes that run past the end of the address space, can get the wrong answer (`InRangeIff`, `WrappedIff`,
  `PastTheEnd`).
- Reports posted ahead of the device's head let the host overtake the device, and the next quiet pass walks its head
  back (`EarlyReports`). What synchronisation promises survives that, unless a whole ring of tasks is outstanding from
  the device's head on (`StepBackAtFull`). With a device that is behind with fewer than 40 tasks that needs a timeout
  first (`AlwaysRoomIff`, `Synchronize`, `SubmitTasks`); with 40 it does not (`GapUsedUp`).

## Model

| member | source | states |
|---|---|---|
| `HeaderImage.HeaderRoundTrip` | src/acc_links/include/acc_def.h:72-77 | every header survives being laid out as 16 bytes and read back |
| `HeaderImage.HeaderSurjective` | src/acc_links/include/acc_def.h:72-77 | every 16-byte image is the layout of some header, so reading arbitrary bytes as a header loses nothing |
| `HeaderImage.BodyLenField` | src/acc_links/include/acc_def.h:72-77 | bytes 4..8 of the image are the body length, little endian |
| `HeaderImage.FieldBytes` | src/acc_links/include/acc_def.h:72-77 | the five fields stand in the order of their declaration, each with its lowest byte first |
| `Framing.EncodeAppend` | src/acc_links/csrc/acc_tcp_link_complex_default.h:404-461 | the byte stream of two message lists in a row is the two streams in a row |
| `Framing.DecodeEncode` | src/acc_links/csrc/acc_tcp_link_complex_default.h:337-461 | decoding the stream of receivable messages gives those messages back |
| `Framing.DecodeBounded` | src/acc_links/csrc/acc_tcp_link_complex_default.h:337-461 | of messages within the limit, decoding gives exactly those before the first empty body |
| `Framing.DecodePieces` | src/acc_links/csrc/acc_tcp_link_complex_default.h:337-402 | what the receiver has finished with can be cut off the stream without changing what the rest means |
| `Framing.DecodeHeld` | src/acc_links/csrc/acc_tcp_link_complex_default.h:337-402 | the bytes of a half-received message never amount to a message |
| `Framing.PollOutConserves` | src/acc_links/csrc/acc_tcp_link_complex_default.h:404-461 | a send round keeps every unsent byte, written or still queued and in order, if and only if no write it performs fails |
| `Framing.PollOutKeepsBytes` | src/acc_links/csrc/acc_tcp_link_complex_default.h:404-461 | partial writes of header or body: written bytes followed by the new pending bytes are the old pending bytes |
| `Framing.PollOutAnswers` | src/acc_links/csrc/acc_tcp_link_complex_default.h:404-461 | what a send round answers, told by its writes and the pending bytes: it takes as many bytes as the writes count; the message is sent exactly when all its bytes are out, is gone unsent exactly when a write of the round fails, which also decides between retry and error, and otherwise stays first in the queue |
| `Framing.PollInKeepsBytes` | src/acc_links/csrc/acc_tcp_link_complex_default.h:337-402 | a receive round moves bytes in order from the stream through the half-received message into at most one finished piece, a complete message or a header whose body is over the limit; none is lost |
| `Framing.PollInAnswers` | src/acc_links/csrc/acc_tcp_link_complex_default.h:337-402 | what a receive round answers, told by its receive calls: it reads as many bytes as they count; the link is broken exactly when the call that decides the round says so, a message is ready exactly when the last byte of its body is in, a header is skipped exactly when it is complete and announces too much |
| `Framing.EnqueueKeepsInv` | src/acc_links/csrc/acc_tcp_link_complex_default.h:133-166 | accepting a message keeps the conservation law of the connection |
| `Framing.SendKeepsInv` | src/acc_links/csrc/acc_tcp_link_complex_default.h:404-461 | a send round keeps the conservation law, for every way its writes are cut short |
| `Framing.ReceiveKeepsInv` | src/acc_links/csrc/acc_tcp_link_complex_default.h:337-402 | a receive round keeps the conservation law, for every way the stream is split |
| `Framing.ReachedInv` | src/acc_links/csrc/acc_tcp_link_complex_default.h:337-461 | the conservation law holds in every state of every run of enqueues, send rounds and receive rounds, up to and including the round that breaks the link |
| `Framing.ReadyIsDecoded` | src/acc_links/csrc/acc_tcp_link_complex_default.h:337-461 | in every state of every run, whatever the bodies and however writes and reads are split, what is handed up is a prefix of what the accepted bytes decode to, and exactly that once nothing is left to read |
| `Framing.ReadyIsPrefix` | src/acc_links/csrc/acc_tcp_link_complex_default.h:337-461 | at all times of every run over bodies within the limit, the messages handed up are a prefix, in order and byte for byte, of the messages accepted |
| `Framing.AllCrossedAllReady` | src/acc_links/csrc/acc_tcp_link_complex_default.h:337-461 | once all bytes have crossed, the messages handed up are all messages accepted if and only if every body has between 1 and the limit of bytes |
| `Framing.SomeRunEnds` | src/acc_links/csrc/acc_tcp_link_complex_default.h:337-461 | every list of messages has a run that sends and reads to the end, and it hands up exactly what their bytes decode to |
| `Framing.PrefixLawIff` | src/acc_links/csrc/acc_tcp_link_complex_default.h:337-461 | for a list of messages, no run ever hands up anything but a prefix of them if and only if no body is over the limit, or an empty body comes before the first one over it, or the bytes after that header decode to nothing |
| `Framing.OversizeBodyDesynchronises` | src/acc_links/csrc/acc_tcp_link_complex_default.h:349-353 | whenever a body over the limit begins with a frame, there is a run in which that inner frame is handed up although nobody sent it, whatever follows |
| `SendQueue.Queue.constructor` | src/acc_links/csrc/acc_tcp_link_complex_default.h:91-109 | a new queue is the empty list |
| `SendQueue.Queue.EnqueueBack` | src/acc_links/csrc/acc_tcp_link_complex_default.h:133-166 | the linked list gains the message at its end exactly when the size is below the cap; head, tail, size and links stay those of one null-terminated list, also while the consumer holds a node |
| `SendQueue.Queue.DequeueFront` | src/acc_links/csrc/acc_tcp_link_complex_default.h:173-195 | the first node leaves the list and is the one the consumer holds; an empty list gives null |
| `SendQueue.Queue.EnqueueFront` | src/acc_links/csrc/acc_tcp_link_complex_default.h:202-222 | the held node is first again whatever the cap says, and the size stays within cap plus one |
| `SendQueue.Queue.TakeAwayMessages` | src/acc_links/csrc/acc_tcp_link_complex_default.h:229-237 | the returned pointer heads exactly the old list and the queue is empty |
| `SendQueue.Link.SendBody` | src/acc_links/csrc/acc_tcp_link_complex_default.h:439-456 | in place, on the held node: refines the body half of the value-level send round |
| `SendQueue.Link.SendHeader` | src/acc_links/csrc/acc_tcp_link_complex_default.h:416-437 | in place, on the held node: which bytes go out, when the body follows in the same round, and whether the node is pushed back, finished or freed |
| `SendQueue.Link.PollOutRound` | src/acc_links/csrc/acc_tcp_link_complex_default.h:404-461 | the in-place round over the linked list computes the value-level round (bytes written, outcome, remaining queue) and reports the sent callback exactly for the message it finished; the callback comes exactly with the last pending byte of the first message |
| `SendQueue.Link.HandleLinkBroken` | src/acc_links/csrc/acc_tcp_server_default.h:167-183 | only the call that flips the flag reports: every queued message once, in queue order; later calls report nothing and change nothing |
| `Receiver.DataBuffer.AllocIfNeed` | src/acc_links/csrc/acc_tcp_shared_buf.cpp:36-58 | succeeds exactly up to the limit, then offers at least the size asked for; replaces the memory only when it is too small |
| `Receiver.ReceiveLink.ReceiveIntoHeader` | src/acc_links/csrc/acc_tcp_link_complex_default.h:343-358 | header bytes land after the ones already there; complete exactly when the missing count arrives |
| `Receiver.ReceiveLink.ReceiveIntoBody` | src/acc_links/csrc/acc_tcp_link_complex_default.h:375-402 | body bytes land after the ones already there, and a finished body lies whole in the buffer |
| `Receiver.ReceiveLink.PollInRound` | src/acc_links/csrc/acc_tcp_link_complex_default.h:337-402 | the in-place round over counters, header memory and growing buffer computes the value-level round: growth never loses a byte of a partly received body |
| `LinkLifecycle.BreakSettlesAll` | src/acc_links/csrc/acc_tcp_server_default.h:167-183 | the break reports everything still waiting, so that everything accepted up to then is settled |
| `LinkLifecycle.RoundBytes` | src/acc_links/csrc/acc_tcp_link_complex_default.h:404-461 | a round leaves the message split between written and pending bytes, and counts it as sent only when all bytes are written |
| `LinkLifecycle.NextKeepsInv` | src/acc_links/csrc/acc_tcp_link_complex_default.h:133-237 | every interleaving step keeps: waiting messages are the tail of the accepted ones in order, settled ones are reported once or dropped, and the bytes written are, message by message, prefixes of their frames |
| `LinkLifecycle.ReachedInv` | src/acc_links/csrc/acc_tcp_worker.h:117-137 | that law in every state of every run of producers, consumer and break handler |
| `LinkLifecycle.QueueBounded` | src/acc_links/csrc/acc_tcp_link_complex_default.h:133-222 | the queue never holds more than cap plus one messages, nor more than cap while the consumer holds one |
| `LinkLifecycle.SentMeansWritten` | src/acc_links/csrc/acc_tcp_worker.h:117-137 | the bytes written are, in order, a prefix of every settled frame and of the next one; a message is reported as sent if and only if its whole frame is among them |
| `LinkLifecycle.DroppedIsLost` | src/acc_links/csrc/acc_tcp_link_complex_default.h:404-461 | over any run, the messages freed without a report are exactly those of which a write failed, in that order |
| `LinkLifecycle.ExactlyOneCallback` | src/acc_links/csrc/acc_tcp_server_default.h:167-183 | a message accepted before the break gets exactly one callback, however often the break handler runs, if and only if no write of it failed in the run; the callback says sent if and only if the whole frame went out; callbacks come in the order of acceptance |
| `LinkLifecycle.DroppedSilently` | src/acc_links/csrc/acc_tcp_link_complex_default.h:432-436 | a run in which a message accepted before the break is never reported: its first write fails |
| `LinkSimulation.RoundMirrors` | src/acc_links/csrc/acc_tcp_link_complex_default.h:404-461 | a round of the linked queue is a take and a round of that life: same bytes, same callback, same waiting messages |
| `LinkSimulation.AcceptMirrors` | src/acc_links/csrc/acc_tcp_link_complex_default.h:133-166 | appending to the linked queue below its cap is accepting a message in that life |
| `LinkSimulation.NetAccepts` | src/acc_links/csrc/acc_tcp_link_complex_default.h:133-166 | the connection of `Framing` accepts a message in the same case and puts it at the end of the queue |
| `LinkSimulation.NetQueueBounded` | src/acc_links/csrc/acc_tcp_link_complex_default.h:133-166 | over every run of it the queue stays within the cap |
| `LinkSimulation.BreakMirrors` | src/acc_links/csrc/acc_tcp_server_default.h:167-183 | the break of the linked queue is the break of that life: the same callbacks in the same order |
| `Stream.PostRely` | src/hybm/csrc/ts_engine/hybm_stream.cpp:310-356 | running a task and posting its report stays within what any number of device steps may do |
| `Stream.AdvanceRely` | src/hybm/csrc/ts_engine/hybm_stream.cpp:260-275 | so does moving the device head past it |
| `Stream.RelyKeepsInv` | src/hybm/csrc/ts_engine/hybm_stream.cpp:358-389 | whatever the device does between two host calls keeps the ring invariant |
| `Stream.ReadOne` | src/hybm/csrc/ts_engine/hybm_stream.cpp:310-356 | the oldest unread report names a task that has run and is outstanding, and no task between the last known outcome and it failed |
| `Stream.RetireQuiet` | src/hybm/csrc/ts_engine/hybm_stream.cpp:370-375 | with no report waiting, every task up to the sampled device head with unknown outcome succeeded; the head may be set there, also when that is a step back |
| `Stream.EarlyReports` | src/hybm/csrc/ts_engine/hybm_stream.cpp:366-383 | the device may post any number of reports before its head moves, the host that reads them is that many tasks ahead of it, and the next quiet sample walks the host head back over all of them |
| `Stream.StepBackAtFull` | src/hybm/csrc/ts_engine/hybm_stream.cpp:370-375 | a quiet sample with a whole ring of tasks from the device head to the tail leaves all of them outstanding and a ring that looks empty |
| `Stream.AlwaysRoomIff` | src/hybm/csrc/ts_engine/hybm_stream.cpp:217-222 | from at most 2048 minus 40 outstanding tasks the host can always be taken back to the device head without ambiguity if and only if the device is behind with fewer than 40 tasks |
| `Stream.GapUsedUp` | src/hybm/csrc/ts_engine/hybm_stream.cpp:213-242 | with a lag of 40, the states along a course without a timeout: 2008 tasks submitted, 40 early reports read, 40 more submitted, and the quiet sample of the synchronisation then due makes a ring of 2048 outstanding tasks look empty; 40 submissions later neither index test has fired and the next slot written is that of a task that has not run |
| `Stream.UnreadBounded` | src/hybm/csrc/ts_engine/hybm_stream.cpp:310-356 | unread reports never exceed the tasks outstanding |
| `Stream.GapTest` | src/hybm/csrc/ts_engine/hybm_stream.cpp:217-222 | the equality test fires exactly at depth minus 40 outstanding tasks, and the full test exactly at depth minus one |
| `Stream.InRangeMeansOutstanding` | src/hybm/csrc/ts_engine/hybm_stream.h:91-95 | the cyclic window test holds exactly for the slots of outstanding tasks |
| `Stream.StillOutstanding` | src/hybm/csrc/ts_engine/hybm_stream.cpp:358-389 | while the window test holds, the host head has not passed that task |
| `Stream.OneMoreSample` | src/hybm/csrc/ts_engine/hybm_stream.cpp:362-386 | pass after pass the host head reaches every device head sampled but the last |
| `Stream.OneMoreWait` | src/hybm/csrc/ts_engine/hybm_stream.cpp:362-386 | a pass that is made at all finds the device, up to two samples ago, short of what is waited for |
| `Stream.HybmStream.DeviceStep` | src/hybm/csrc/ts_engine/hybm_stream.cpp:213-242 | the device posts or advances in any order as long as its head is behind by at most its lag; each step keeps the rely |
| `Stream.HybmStream.GetSqHead` | src/hybm/csrc/ts_engine/hybm_stream.cpp:260-275 | the sampled slot is that of a device head reached during the call, whatever the device did meanwhile |
| `Stream.HybmStream.GetCqeStatus` | src/hybm/csrc/ts_engine/hybm_stream.cpp:244-258 | a clear status bit means no report is waiting at that moment |
| `Stream.HybmStream.RecvReports` | src/hybm/csrc/ts_engine/hybm_stream.cpp:314-334 | up to 32 reports leave the queue in order; none only when none is waiting |
| `Stream.HybmStream.ScanReports` | src/hybm/csrc/ts_engine/hybm_stream.cpp:336-347 | after a batch, the last task seen is the position read so far, and the status is failed exactly when a task up to it failed |
| `Stream.HybmStream.ReceiveCqe` | src/hybm/csrc/ts_engine/hybm_stream.cpp:310-356 | the drain terminates with no report waiting, and is failed exactly when a task it read past failed |
| `Stream.HybmStream.RetireTo` | src/hybm/csrc/ts_engine/hybm_stream.cpp:370-375 | walking the ring ends at the sampled head, whether that is ahead or behind, after as many steps as the distance modulo the depth |
| `Stream.HybmStream.SyncRound` | src/hybm/csrc/ts_engine/hybm_stream.cpp:362-386 | one pass: the host head moves back exactly when no report is waiting and the sampled device head is behind it, and then by at most the lag; failed exactly when a task of unknown outcome failed; with the status bit clear at the start the head reaches where the device was then, and it reaches the sample unless the bit is clear at the end |
| `Stream.HybmStream.Synchronize` | src/hybm/csrc/ts_engine/hybm_stream.cpp:358-389 | for every interleaving and every lag of the device: success without argument means all tasks submitted before have run and none of unknown outcome failed, and each failure is reported once; success for one task means it is retired; a timeout only after a million samples of the device head, of which all but the last two, given room to step back, were short of what it waits for, and so was the device at the call; the head moves back only on a timeout and by at most the lag; ring indices stay unambiguous unless a whole ring of tasks was outstanding from the device head on; with a lag below 40, at most 2048 minus 40 outstanding tasks stay so unless it times out |
| `Stream.HybmStream.SubmitTasks` | src/hybm/csrc/ts_engine/hybm_stream.cpp:213-242 | with a lag below 40, or with room to step back: the slot written belongs to a task that has run, and the ring is reported full exactly at depth minus one outstanding tasks; from at most 2048 minus 40 on, no more than that are outstanding after any call but one whose synchronisation timed out; tasks are recorded exactly on success, for any lag; it is late only when the device had not passed the oldest task, and fails otherwise exactly when a task of unknown outcome failed |
| `Stream.HybmStream.SyncEarly` | src/hybm/csrc/ts_engine/hybm_stream.cpp:217-222 | the synchronisation before the ring is full waits for the oldest task and no other |
| `Stream.HybmStream.Send` | src/hybm/csrc/ts_engine/hybm_stream.cpp:223-241 | the new task occupies its slot and the ring holds the last 2048 tasks submitted |
| `RangePool.AlignUp` | src/hybm/csrc/common/hybm_rbtree_range_pool.cpp:128-133 | page rounding in 64-bit arithmetic, zero exactly for size zero and for the sizes that wrap |
| `RangePool.FreeByteInGap` | src/hybm/csrc/common/hybm_rbtree_range_pool.cpp:26-126 | every unused byte lies in some maximal gap, so a free list of all gaps misses none |
| `RangePool.GapsApart` | src/hybm/csrc/common/hybm_rbtree_range_pool.cpp:26-126 | two maximal gaps are the same or separated by a used byte |
| `RangePool.InitialCanonical` | src/hybm/csrc/common/hybm_rbtree_range_pool.cpp:26-31 | the initial list is canonical exactly for a non-empty pool |
| `RangePool.CarveCanonical` | src/hybm/csrc/common/hybm_rbtree_range_pool.cpp:74-80 | cutting a block off the front of a gap leaves exactly the maximal gaps of the enlarged block set |
| `RangePool.MergeCanonical` | src/hybm/csrc/common/hybm_rbtree_range_pool.cpp:98-122 | merging a freed block with its two neighbours leaves exactly the maximal gaps of the reduced block set |
| `RangePool.EmptyReleaseCanonical` | src/hybm/csrc/common/hybm_rbtree_range_pool.cpp:98-122 | releasing an element of rounded size zero keeps the list canonical if and only if it sits on an edge of a free range |
| `RangePool.RunReleaseIff` | src/hybm/csrc/common/hybm_rbtree_range_pool.cpp:98-122 | whatever run of bytes is released, both indices end up with exactly the gaps of what is then used if and only if the run was in use throughout or was a gap already |
| `RangePool.EmptyReleaseBreaks` | src/hybm/csrc/common/hybm_rbtree_range_pool.cpp:85-126 | a pool of two pages whose calls allocate nothing, a page, and release the first: its free list is no longer that of the gaps |
| `RangePool.DoubleReleaseBreaks` | src/hybm/csrc/common/hybm_rbtree_range_pool.cpp:85-126 | a pool of two pages whose calls allocate a page and release it twice: nothing is live and the free list is not that of the empty pool |
| `RangePool.LastBefore` | src/hybm/csrc/common/hybm_rbtree_range_pool.cpp:103-112 | only the nearest free range below can end where the block starts, so one look is enough |
| `RangePool.AllReleasedRestoresInitial` | src/hybm/csrc/common/hybm_rbtree_range_pool.cpp:26-126 | with nothing live the list is the single initial range, whatever order of releases led there |
| `RangePool.LowerBound` | src/hybm/csrc/common/hybm_rbtree_range_pool.cpp:38-47 | first range not below the anchor in the size-then-offset order |
| `RangePool.Pool.constructor` | src/hybm/csrc/common/hybm_rbtree_range_pool.cpp:26-31 | both indices hold the one range; valid exactly for a non-empty pool |
| `RangePool.Pool.CanAllocate` | src/hybm/csrc/common/hybm_rbtree_range_pool.cpp:38-47 | true exactly when some free range is at least the rounded size |
| `RangePool.Pool.Allocate` | src/hybm/csrc/common/hybm_rbtree_range_pool.cpp:49-83 | succeeds exactly when the base is set and some gap suffices; takes the smallest, lowest of equals; both indices again hold exactly the gaps between disjoint blocks |
| `RangePool.Pool.Carve` | src/hybm/csrc/common/hybm_rbtree_range_pool.cpp:65-80 | both indices move together from the gap to its remainder |
| `RangePool.Pool.Release` | src/hybm/csrc/common/hybm_rbtree_range_pool.cpp:85-126 | refuses exactly elements outside the pool; a live block is gone and both indices hold exactly the gaps of the others; for any other element, the exact condition under which the free list survives |
| `RangePool.Pool.MergePrevious` | src/hybm/csrc/common/hybm_rbtree_range_pool.cpp:103-112 | takes out the free range that ends at the block, exactly when there is one |
| `RangePool.Pool.Refile` | src/hybm/csrc/common/hybm_rbtree_range_pool.cpp:98-122 | merges the run with the free ranges beside it; the two indices agree afterwards exactly when no free range of another size started there |
| `RangePool.Pool.Unfile` | src/hybm/csrc/common/hybm_rbtree_range_pool.cpp:103-119 | takes out of both indices the free ranges that touch the block, on either side, and no other |
| `VaManager.AddKeepsIndices` | src/hybm/csrc/mm/hybm_va_manager.cpp:61-63 | after adding, the three indices are again one set of ranges disjoint in both address spaces if and only if the new range is clear of every registered one |
| `VaManager.RemoveKeepsIndices` | src/hybm/csrc/mm/hybm_va_manager.cpp:107-123 | after removing, the three indices are one disjoint set again |
| `VaManager.FloorFindsHit` | src/hybm/csrc/mm/hybm_va_manager.cpp:147-180 | the nearest entry at or below an address is the only range that can contain it: the lookup equals a linear scan |
| `VaManager.FloorFindsHitByLva` | src/hybm/csrc/mm/hybm_va_manager.cpp:127-145 | the same for the index by local address, whatever sits under key zero |
| `VaManager.LvaRoundTrip` | src/hybm/csrc/mm/hybm_va_manager.cpp:127-164 | translating a global address to its local one leads back to the same range, and to no other |
| `VaManager.KnownNoConflict` | src/hybm/csrc/mm/hybm_va_manager.cpp:50-60 | a range equal to a registered one overlaps no other |
| `VaManager.Manager.CheckOverlap` | src/hybm/csrc/mm/hybm_va_manager.cpp:359-373 | in any state, finding nothing means no range in the list of the type overlaps; with valid indices what it finds is a registered range of the type that overlaps |
| `VaManager.Manager.AddVaInfo` | src/hybm/csrc/mm/hybm_va_manager.cpp:33-65 | in any state it records the range in all three indices, against no range of the type's list, or leaves all three alone; with valid indices, exactly when it refuses, ignores and records, and that they stay valid exactly when a range recorded is clear of every other |
| `VaManager.Manager.IsGva` | src/hybm/csrc/mm/hybm_va_manager.cpp:166-180 | true exactly when some registered range contains the address; undefined exactly for a non-zero address and an empty registry |
| `VaManager.Manager.GetRank` | src/hybm/csrc/mm/hybm_va_manager.cpp:238-255 | the rank of the range that contains the address, failing exactly when none does; undefined exactly for a non-zero address and an empty registry |
| `VaManager.Manager.GetLvaByGva` | src/hybm/csrc/mm/hybm_va_manager.cpp:147-164 | the offset into the containing range applied to its local address, zero when none contains it |
| `VaManager.Manager.GetGvaByLva` | src/hybm/csrc/mm/hybm_va_manager.cpp:127-145 | the inverse translation, zero when no local range contains the address |
| `VaManager.Manager.RemoveOneVaInfo` | src/hybm/csrc/mm/hybm_va_manager.cpp:92-125 | takes out exactly the range that starts at the address meant, directly or through its local address, and keeps all indices one set; undefined exactly for a non-zero address and an empty registry |
| `VaManager.Manager.Erase` | src/hybm/csrc/mm/hybm_va_manager.cpp:107-124 | one range leaves all three indices together |
| `VaManager.CrossTypeOverlapBreaks` | src/hybm/csrc/mm/hybm_va_manager.cpp:33-65 | any two overlapping ranges of different memory types are both accepted and leave the indices without a disjoint set |
| `Reservation.SweepPast` | src/hybm/csrc/mm/hybm_va_manager.cpp:394-409 | passing a reservation skips no address where the block would fit |
| `Reservation.SweepStops` | src/hybm/csrc/mm/hybm_va_manager.cpp:394-414 | where the sweep stops the block meets no reservation at all |
| `Reservation.Space.FindFreeSpace` | src/hybm/csrc/mm/hybm_va_manager.cpp:375-417 | the lowest address where the block fits, failing only when there is none |
| `Reservation.Space.AllocReserveGva` | src/hybm/csrc/mm/hybm_va_manager.cpp:264-288 | first fit, sound and complete: reserves the lowest fitting address exactly when one exists and keeps reservations disjoint inside the window |
| `Reservation.Space.FreeReserveGva` | src/hybm/csrc/mm/hybm_va_manager.cpp:290-306 | exactly the named reservation goes |
| `ConnSegment.SlabsApart` | src/hybm/csrc/mm/hybm_conn_based_segment.cpp:94-122 | slices in the slabs of different ranks never meet |
| `ConnSegment.SlabByteRank` | src/hybm/csrc/mm/hybm_conn_based_segment.cpp:260-270 | for any byte of a slice in a slab the division gives the rank of that slab |
| `ConnSegment.RanksAgree` | src/hybm/csrc/mm/hybm_conn_based_segment.cpp:247-270 | any byte of a registered host range lies in the slab of its rank, and the operator space table decides by that slab |
| `ConnSegment.Segment.GetRankIdByAddr` | src/hybm/csrc/mm/hybm_conn_based_segment.cpp:247-270 | for bytes inside the segment the rank whose slab the address is in, else a failure with the own rank |
| `ConnSegment.ThreeRanks` | src/hybm/csrc/mm/hybm_conn_based_segment.cpp:260-270 | asked about bytes of a registered host range, the segment, the operators and the registry return the same rank |
| `ConnSegment.OwnTableAgrees` | src/hybm/csrc/data_operation/hybm_data_operator.h:65-89 | the same, with nothing asked of the operators' table, when it is a new one that was told the segment's own base, slab size and rank count |
| `ConnSegment.ImportedRank` | src/hybm/csrc/mm/hybm_conn_based_segment.cpp:171-270 | after the import of a slice in its rank's slab, all three name that rank for every byte of it |
| `ConnSegment.AllocatedRank` | src/hybm/csrc/mm/hybm_conn_based_segment.cpp:94-122 | after a local allocation all three name the own rank for every byte of it, and its local addresses are its global ones |
| `ConnSegment.SpaceTable.GetRankIdByGva` | src/hybm/csrc/data_operation/hybm_data_operator.h:78-89 | the first space that contains the address decides; no space gives the invalid rank |
| `ConnSegment.LocalIsClear` | src/hybm/csrc/mm/hybm_conn_based_segment.cpp:94-122 | the next local slice overlaps nothing registered |
| `ConnSegment.ImportIsClear` | src/hybm/csrc/mm/hybm_conn_based_segment.cpp:189-197 | a remote slice that no host range opposes overlaps nothing registered |
| `ConnSegment.PlacedIff` | src/hybm/csrc/mm/hybm_conn_based_segment.cpp:189-197 | recording a range keeps host ranges in the slabs of their ranks if and only if it lies in its own |
| `ConnSegment.ImportKeepsIff` | src/hybm/csrc/mm/hybm_conn_based_segment.cpp:189-197 | recording an imported range keeps the slabs and the used front of the own slab in order if and only if the range fits them |
| `ConnSegment.StrayStays` | src/hybm/csrc/mm/hybm_conn_based_segment.cpp:189-197 | a slice recorded outside its slab stays in the registry whatever is imported after it |
| `ConnSegment.Segment.ImportOne` | src/hybm/csrc/mm/hybm_conn_based_segment.cpp:193-195 | one slice of a batch: when it is refused, when it is recorded, and that the segment stays valid exactly when a slice recorded fits |
| `ConnSegment.Segment.AllocLocalMemory` | src/hybm/csrc/mm/hybm_conn_based_segment.cpp:94-122 | page-aligned, disjoint slices from the front of the own slab; the exact error cases; the registry never objects |
| `ConnSegment.Segment.RegisterLocal` | src/hybm/csrc/mm/hybm_conn_based_segment.cpp:113-115 | registering the next slice always succeeds and keeps every host range in the slab of its rank |
| `ConnSegment.Segment.ImportSlices` | src/hybm/csrc/mm/hybm_conn_based_segment.cpp:171-198 | for any batch: the segment is valid afterwards if and only if every slice that was recorded lies in the slab of its rank; then exactly what was registered before and the recorded slices are registered, and after success every non-empty remote slice is; a failure names a slice that starts at null or that a different host range opposes |
| `ConnSegment.HandledOrRefused` | src/hybm/csrc/mm/hybm_conn_based_segment.cpp:189-197 | no slice away from null is both registered and opposed, so success and failure exclude each other |
| `ConnSegment.Segment.Mmap` | src/hybm/csrc/mm/hybm_conn_based_segment.cpp:200-210 | maps exactly the addresses of imports from other ranks and forgets the imports |
| `ConnSegment.Segment.RemoveOne` | src/hybm/csrc/mm/hybm_conn_based_segment.cpp:352-355 | removes the range that starts at an address of the segment; an unregistered address removes nothing, not even through local addresses |
| `ConnSegment.CoveredIff` | src/hybm/csrc/mm/hybm_conn_based_segment.cpp:350-356 | removing addresses lowest first never meets an empty registry if and only if some entry is not among them or is the last of them |
| `ConnSegment.OutsiderSteadies` | src/hybm/csrc/mm/hybm_conn_based_segment.cpp:340-361 | one registered range outside the named slabs, such as an own slice, is enough for that |
| `ConnSegment.RegisteredSteadies` | src/hybm/csrc/mm/hybm_conn_based_segment.cpp:340-361 | so is that every mapped address is registered |
| `ConnSegment.Segment.RemoveSlab` | src/hybm/csrc/mm/hybm_conn_based_segment.cpp:348-359 | drops exactly the mapped addresses of one slab, registered or not, from the segment and the registry, unless it meets an empty registry, and says exactly when that is |
| `ConnSegment.Segment.RemoveImported` | src/hybm/csrc/mm/hybm_conn_based_segment.cpp:340-361 | drops exactly the mapped addresses in the named slabs, registered or not, from the segment and the registry, or nothing when any rank is invalid; meets an empty registry exactly when no entry outlasts the removals |
| `ConnSegment.EmptyImportBreaks` | src/hybm/csrc/mm/hybm_conn_based_segment.cpp:171-361 | a fresh segment that imports an empty slice of another rank, maps it and removes that rank looks up an address in an empty registry |
| `ReserveChunks.ScaledDivides` | src/hybm/csrc/mm/hybm_dev_legacy_segment.cpp:55-68 | searching divisors of the rank count finds exactly the chunk sizes that divide the total |
| `ReserveChunks.LargestDivisor` | src/hybm/csrc/mm/hybm_dev_legacy_segment.cpp:57-63 | the count-down finds the greatest divisor up to the bound |
| `ReserveChunks.BestChunk` | src/hybm/csrc/mm/hybm_dev_legacy_segment.cpp:55-68 | the count-down search stops at the largest admissible chunk |
| `ReserveChunks.ChunkUnique` | src/hybm/csrc/mm/hybm_dev_legacy_segment.cpp:46-72 | total and rank size determine the chunk, so reserving and releasing agree on it |
| `ReserveChunks.GetReserveChunkSize` | src/hybm/csrc/mm/hybm_dev_legacy_segment.cpp:46-72 | the largest whole number of ranks within 128 GB that divides the total, one rank when a rank is larger, the total when it fits, zero exactly when nothing divides |
| `ReserveChunks.ChunkSplits` | src/hybm/csrc/mm/hybm_dev_legacy_segment.cpp:46-72 | the chunk is positive, so that reserving and releasing terminate, if and only if the size fits one chunk or is a whole number of ranks; a positive chunk divides the size |
| `ReserveChunks.LeakIff` | src/hybm/csrc/mm/hybm_dev_legacy_segment.cpp:94-111 | after a good first answer, a failed call leaves nothing reserved if and only if it failed on the second answer and that granted nothing new |
| `ReserveChunks.GvaReserveMemory` | src/hybm/csrc/mm/hybm_dev_legacy_segment.cpp:86-112 | a positive size is reserved if and only if every answer after the first grants a chunk directly below the one before, for as many chunks as the size takes; then the chunks descend without gaps over exactly the size; after a failure, exactly what was granted but for the first chunk stays reserved |
| `ReserveChunks.ReserveAll` | src/hybm/csrc/mm/hybm_dev_legacy_segment.cpp:94-111 | the loop behind it: it succeeds if and only if every answer after the first grants a non-zero chunk directly below the one before, and stops at the first that does not; each request is for one whole chunk with the last base as a hint; and what the driver still has reserved at each exit |
| `ReserveChunks.SecondChunkLeaks` | src/hybm/csrc/mm/hybm_dev_legacy_segment.cpp:94-111 | three chunks of which the driver grants two: the call fails and the second chunk stays reserved |
| `ReserveChunks.GvaUnreserveMemory` | src/hybm/csrc/mm/hybm_dev_legacy_segment.cpp:74-84 | releases upwards from the lowest address, one call per chunk, over exactly the total |
| `ReserveChunks.DescendingTiles` | src/hybm/csrc/mm/hybm_dev_legacy_segment.cpp:86-112 | descending chunks tile the address space upwards from the last base |
| `ReserveChunks.ReleaseMatchesReserve` | src/hybm/csrc/mm/hybm_dev_legacy_segment.cpp:74-112 | releasing visits exactly the reserved bases, each once |
| `UserSegment.TagRecoversIff` | src/hybm/csrc/mm/hybm_dev_user_legacy_segment.cpp:414-415 | tagging loses neither rank nor address if and only if the address was untagged and the rank is not 65535 |
| `UserSegment.ImportConsistentIff` | src/hybm/csrc/mm/hybm_dev_user_legacy_segment.cpp:414-423 | an import leaves the five containers in step if and only if its slice index is free and its name is not held by another rank |
| `UserSegment.ImportStepIff` | src/hybm/csrc/mm/hybm_dev_user_legacy_segment.cpp:363-430 | the same for an import under a freshly tagged address |
| `UserSegment.ListReachesAll` | src/hybm/csrc/mm/hybm_dev_user_legacy_segment.cpp:225-271 | walking the list of a rank reaches every entry of that rank in all five containers |
| `UserSegment.RemovalKeepsInStep` | src/hybm/csrc/mm/hybm_dev_user_legacy_segment.cpp:225-271 | after removing a rank the containers are in step again |
| `UserSegment.RemovedIsExact` | src/hybm/csrc/mm/hybm_dev_user_legacy_segment.cpp:225-271 | from containers in step, the loop over the list of a rank takes exactly the entries of that rank |
| `UserSegment.LocalStaysInStep` | src/hybm/csrc/mm/hybm_dev_user_legacy_segment.cpp:56-112 | registering and releasing own memory, which only touches untagged addresses, keeps the containers in step |
| `UserSegment.HistoryStaysInStep` | src/hybm/csrc/mm/hybm_dev_user_legacy_segment.cpp:56-430 | after any history of imports, removals, local registrations and releases that gives out at most 65536 indices, with untagged addresses, ranks below 65535 and no name shared by two ranks, the containers are in step and removing any rank clears exactly that rank |
| `UserSegment.SharedNameLost` | src/hybm/csrc/mm/hybm_dev_user_legacy_segment.cpp:240-267 | when a second rank imports a name of the first and is removed, the first loses its entry |
| `UserSegment.TwoRanksOneName` | src/hybm/csrc/mm/hybm_dev_user_legacy_segment.cpp:240-267 | the shortest such history from empty containers |
| `UserSegment.SharedIndexLost` | src/hybm/csrc/mm/hybm_dev_user_legacy_segment.cpp:418-421 | when the 16-bit count comes round to an index another rank uses, removing the newcomer takes that slice |
| `UserSegment.CountComesRound` | src/hybm/csrc/mm/hybm_dev_user_legacy_segment.cpp:56-430 | such a history from empty containers: an import, 65535 local registrations and an import by another rank under another name |
| `UserSegment.EraseOne` | src/hybm/csrc/mm/hybm_dev_user_legacy_segment.cpp:234-268 | erasing the next slice of the list is erasing the prefix one longer, also when slices share a name or an address |
| `UserSegment.Segment.RegisterMemory` | src/hybm/csrc/mm/hybm_dev_user_legacy_segment.cpp:56-93 | refuses exactly a null address or an empty size; otherwise takes the next index of the count shared with imports and adds the address; the containers stay what the calls so far make of empty ones |
| `UserSegment.Segment.ReleaseSliceMemory` | src/hybm/csrc/mm/hybm_dev_user_legacy_segment.cpp:95-112 | refuses exactly an unknown index; otherwise takes out the address registered under it |
| `UserSegment.Segment.ImportSliceInfo` | src/hybm/csrc/mm/hybm_dev_user_legacy_segment.cpp:363-430 | a null address changes nothing; otherwise the slice is recorded under its tag, existing keys keeping their values; the containers stay what the calls so far make of empty ones |
| `UserSegment.Segment.RemoveSliceInfo` | src/hybm/csrc/mm/hybm_dev_user_legacy_segment.cpp:225-271 | after any orderly history of calls that gave out at most 65536 indices, all entries of the rank leave the five containers and every other entry stays as it is |
| `UserSegment.Segment.EraseAll` | src/hybm/csrc/mm/hybm_dev_user_legacy_segment.cpp:233-269 | the loop over the list, whatever the containers hold, erases slice by slice |
| `UserSegment.NearestIsScan` | src/hybm/csrc/mm/hybm_dev_user_legacy_segment.cpp:310-319 | when no slice ends after one that starts later, some slice at or below an address reaches an end if and only if the nearest one does |
| `UserSegment.InRangeIff` | src/hybm/csrc/mm/hybm_dev_user_legacy_segment.cpp:310-319 | for all bytes within the address space the lookup answers as a scan of all slices does, if and only if no slice ends after one that starts later; disjoint slices are of this kind |
| `UserSegment.WrappedIff` | src/hybm/csrc/mm/hybm_dev_user_legacy_segment.cpp:310-319 | over 64-bit addresses and sizes, the answer is right exactly when address plus size does not wrap or wraps beyond the reach of every slice at or below the address |
| `UserSegment.WordScan` | src/hybm/csrc/mm/hybm_dev_user_legacy_segment.cpp:310-319 | in terms of tags and the 48 bits below them, the scan asks whether one slice under the same tag contains the bytes |
| `UserSegment.PastTheEnd` | src/hybm/csrc/mm/hybm_dev_user_legacy_segment.cpp:310-319 | one byte past the end of the address space is in range as soon as there is any slice |
| `UserSegment.Segment.MemoryInRange` | src/hybm/csrc/mm/hybm_dev_user_legacy_segment.cpp:310-319 | true exactly when the nearest slice at or below the address ends at or after the bytes do, in 64-bit arithmetic; so for disjoint slices and bytes within the address space exactly when one slice contains them all; for slices that lie inside the address space of their tags and do not overlap there, exactly when one slice under the same tag contains them |
| `UserHistory.HistoryPerKey` | src/hybm/csrc/mm/hybm_dev_user_legacy_segment.cpp:56-430 | after every orderly history that gives out at most 65536 indices, each container holds under every key what the calls say: the first slice, size, name or address filed there since the rank or slice it came with was last removed |
| `UserHistory.OwnBytes` | src/hybm/csrc/mm/hybm_dev_user_legacy_segment.cpp:310-319 | bytes from inside a slice on are in some slice exactly as far as that slice goes, and in none without it |
| `UserHistory.ImportedBytes` | src/hybm/csrc/mm/hybm_dev_user_legacy_segment.cpp:225-430 | bytes of a remote slice are out of range before its import, in range during it exactly as far as the slice goes, and out of range after its rank is removed |
| `UserHistory.RegisteredBytes` | src/hybm/csrc/mm/hybm_dev_user_legacy_segment.cpp:56-112 | the same for own memory between registration and release |
| `Barrier.NextKeepsInv` | example/bm/BmBenchmark/barrier_util.h:41-79 | every step keeps each client in step with the server, and the channels hold exactly the byte in between |
| `Barrier.ReachedInv` | example/bm/BmBenchmark/barrier_util.h:41-79 | that in every state of every run |
| `Barrier.BarrierSafety` | example/bm/BmBenchmark/barrier_util.h:41-79 | for any number of processes and rounds: nobody leaves a round that anybody has not entered, counters differ by at most one, and a connection never holds more than one byte, so a 10-byte read never merges rounds |
| `Benchmark.CopyParity` | example/bm/BmBenchmark/band_width_calculator.cpp:497-505 | the master node copies after an even number of barriers, the other node after an odd number |
| `Benchmark.DirectionBars` | example/bm/BmBenchmark/band_width_calculator.cpp:607-728 | each direction passes two barriers on either node, also when the copy is skipped |
| `Benchmark.ApplyKeepsInv` | example/bm/BmBenchmark/band_width_calculator.cpp:487-507 | every move keeps the count of passed barriers equal to the rounds left |
| `Benchmark.PhasesExclude` | example/bm/BmBenchmark/band_width_calculator.cpp:487-507 | in no reachable state does a master-node process copy while a process of the other node copies |
| `BenchmarkRuns.ProgramBars` | example/bm/BmBenchmark/band_width_calculator.cpp:487-507 | on either node a process passes two barriers a direction, also where copies are skipped |
| `BenchmarkRuns.ProgramCopies` | example/bm/BmBenchmark/band_width_calculator.cpp:607-728 | on either node a process copies once for every supported direction |
| `BenchmarkRuns.MoveTakesOne` | example/bm/BmBenchmark/band_width_calculator.cpp:487-507 | every move of every process takes one off the moves left |
| `BenchmarkRuns.SomeMove` | example/bm/BmBenchmark/band_width_calculator.cpp:487-507 | no process waits for a barrier that another has no more of: while one is not at its end, some move is enabled |
| `BenchmarkRuns.EveryRunCompletes` | example/bm/BmBenchmark/band_width_calculator.cpp:487-507 | under every schedule of any job a run takes at most a fixed number of moves; having taken that many, being able to go no further and having every process at the end of its program are the same |
| `BenchmarkRuns.EveryDirectionCopied` | example/bm/BmBenchmark/band_width_calculator.cpp:487-507 | under every schedule each process has completed one copy for every supported direction when the run can go no further, and never more |
| `AllReduce.BlocksApart` | example/shm/AllReduce/shm_all_reduce.cpp:51-61 | the blocks of two cores never share an element and none runs past the data |
| `AllReduce.PutOther` | example/shm/AllReduce/shm_all_reduce.cpp:102-104 | writing one block into a rank's data leaves every other block as it is |
| `AllReduce.OnlyOwnElements` | example/shm/AllReduce/shm_all_reduce.cpp:102-104 | a step of a core changes no element of any rank's data outside its block |
| `AllReduce.OnlyOwnBlocks` | example/shm/AllReduce/shm_all_reduce.cpp:84-104 | nor does what it computes depend on any |
| `AllReduce.ReadyMeansStarted` | example/shm/AllReduce/shm_all_reduce.cpp:74-77 | a core past the first rendezvous knows that every rank has its input in place |
| `AllReduce.FoldStep` | example/shm/AllReduce/shm_all_reduce.cpp:88-97 | one round of the accumulation yields the next carried buffer, and the last one the result |
| `AllReduce.NextKeepsInv` | example/shm/AllReduce/shm_all_reduce.cpp:70-114 | every step of every core or rank keeps the invariant |
| `AllReduce.ReachedInv` | example/shm/AllReduce/shm_all_reduce.cpp:70-114 | the invariant in every state of every interleaving |
| `AllReduce.FinishedRankSeesAllResults` | example/shm/AllReduce/shm_all_reduce.cpp:70-114 | for two ranks or more and every interleaving, once the cores of any one rank have finished, every block of every rank's data holds the result of its owner and the rest is as loaded |
| `AllReduce.TailStays` | example/shm/AllReduce/shm_all_reduce.cpp:93-96 | an element past the last whole repeat of the vector copy carries the input of rank 0 throughout |
| `AllReduce.ReducesIff` | example/shm/AllReduce/shm_all_reduce.cpp:84-97 | for every addition and all inputs the result is the rank-order fold if and only if there are two ranks or the block length is a multiple of 128 |
| `AllReduce.CoversIff` | example/shm/AllReduce/shm_all_reduce.cpp:51-61 | the blocks cover all data if and only if no division rounds |
| `AllReduce.RankCounts` | example/shm/AllReduce/shm_all_reduce.cpp:16-18 | of 2 to 32 ranks no tail is lost for exactly 2, 4, 8, 16 and 32, and those cover all data |
| `AllReduce.AllReduceIsFold` | example/shm/AllReduce/shm_all_reduce.cpp:70-114 | for 2, 4, 8, 16 or 32 ranks and every interleaving, once the cores of any one rank have finished, every element of every rank's data is the rank-order fold of the original inputs |
| `AllReduce.OtherCountsFail` | example/shm/AllReduce/shm_all_reduce.cpp:84-97 | for every other count up to 32 there is an input and an element that is wrong on every rank in every run that brought the cores of any one rank to their end |
| `AllReduce.SingleRankStoresLeftover` | example/shm/AllReduce/shm_all_reduce.cpp:84-104 | with one rank there is a run that stores whatever the result buffer held before |
| `AllReduceRuns.StepTakesOne` | example/shm/AllReduce/shm_all_reduce.cpp:70-114 | every step of every core or rank takes one off the steps left |
| `AllReduceRuns.SomeStep` | example/shm/AllReduce/shm_all_reduce.cpp:74-114 | no core waits for a flag that nobody will set: while one is not through, some step is enabled |
| `AllReduceRuns.EveryRunCompletes` | example/shm/AllReduce/shm_all_reduce.cpp:70-114 | under every schedule of two ranks or more a run takes at most a fixed number of steps; having taken that many, being able to go no further and having finished every core of every rank are the same |
| `AllReduceRuns.EveryRunReduces` | example/shm/AllReduce/shm_all_reduce.cpp:70-114 | for 2, 4, 8, 16 or 32 ranks every run that can go no further has the rank-order fold in every element of every rank |
| `ChunkedCopy.CopyGm2Gm` | src/hybm/csrc/copy_extend/hybm_copy_kernel.cpp:44-66 | the loop over whole chunks and the remainder, in place, is the chunk-by-chunk copy |
| `ChunkedCopy.SafeIsFlat` | src/hybm/csrc/copy_extend/hybm_copy_kernel.cpp:44-66 | without a harmful overlap the chunks amount to one copy |
| `ChunkedCopy.ChunkedIsFlatIff` | src/hybm/csrc/copy_extend/hybm_copy_kernel.cpp:44-66 | chunks amount to one copy for every content if and only if the destination is not ahead of an overlapping source longer than a chunk |
| `ChunkedCopy.CopyItemIff` | src/hybm/csrc/copy_extend/hybm_copy_kernel.cpp:106-111 | a descriptor is copied as asked for every content if and only if source and destination coincide or its length fits 32 bits and the overlap is safe |
| `BatchCopy.SharesPartition` | src/hybm/csrc/copy_extend/hybm_copy_kernel.cpp:102-104 | every descriptor is in the share of exactly one block |
| `BatchCopy.SourceKept` | src/hybm/csrc/copy_extend/hybm_copy_kernel.cpp:97-119 | source bytes keep their first value throughout the run |
| `BatchCopy.NextKeepsInv` | src/hybm/csrc/copy_extend/hybm_copy_kernel.cpp:97-119 | every step of every block keeps what has arrived, what is buffered, the copy counts and the token |
| `BatchCopy.ReachedInv` | src/hybm/csrc/copy_extend/hybm_copy_kernel.cpp:97-119 | that in every state of every interleaving |
| `BatchCopy.TokenMeansCopied` | src/hybm/csrc/copy_extend/hybm_copy_kernel.cpp:112-118 | a mask beyond a block means that each of its descriptors is copied, once, byte for byte |
| `BatchCopy.AllThrough` | src/hybm/csrc/copy_extend/hybm_copy_kernel.cpp:97-119 | when the mask equals the number of blocks, every descriptor was copied exactly once and memory outside the destinations is untouched |
| `BatchCopy.StepTakesOne` | src/hybm/csrc/copy_extend/hybm_copy_kernel.cpp:97-119 | every step of every block takes one off the steps left |
| `BatchCopy.EveryRunCompletes` | src/hybm/csrc/copy_extend/hybm_copy_kernel.cpp:97-119 | under every schedule a run takes at most a fixed number of steps; having taken that many, being able to go no further and having passed the token through every block are the same |
| `BatchCopy.EveryRunCopies` | src/hybm/csrc/copy_extend/hybm_copy_kernel.cpp:97-119 | every run of the kernel that can go no further has copied each descriptor exactly once, byte for byte, and left memory outside the destinations as it was |

## Left out

- Sockets, epoll, TLS, the listener and reconnecting: a connection is a byte stream, and a read or write call is a
  parameter that says how much it moved or how it failed.
- A connection after its first failed write or broken read: `Framing` runs end there; what the round itself does then
  is stated by `PollOutAnswers`, `PollInAnswers` and `LinkLifecycle`.
- More than one consumer per connection: the push-back protocol of the source relies on one.
- Failing memory allocation in the send queue and the receive buffer.
- The header's `type` range check and the handler tables of the server and the worker: a callback is a record.
- SendQueue.Link.HandleLinkBroken: stops after the callbacks; removing the link from the worker and the maps is not
  modelled.
- Stream.HybmStream.SubmitTasks: driver calls succeed, including the send, and the stream is initialised. For a lag of
  40 or more without room to step back it states only what is recorded; `GapUsedUp` shows why.
- Stream.HybmStream.Interfere: the device runs tasks in order, posts the report of a task, if it makes one, before its
  head moves past that task, and its head is behind by at most a fixed number of tasks, any number.
- Stream.HybmStream.Synchronize: the pause between two passes is not modelled; the number of passes is.
- Addresses and sizes in `VaManager`, `Reservation`, `ConnSegment` and `ReserveChunks` are unbounded naturals, so sums
  that wrap at 64 bits are not modelled; `RangePool` models the wrap of its rounding and `UserSegment` its 16-bit
  index and tag and the 64-bit sums of `MemoryInRange`.
- VaManager.Manager.IsGva: on an empty registry the source reads an entry that is not there; the model reports the
  call as undefined and leaves the registry as it is. The same for `GetRank` and `RemoveOneVaInfo`.
- `GetMemType`, `ClassifyAddress`, `InferCopyDirection` and the dump functions of the registry: table lookups.
- ConnSegment.Segment.AllocLocalMemory: slices are kept as a sequence; the wrap of their 16-bit index is not modelled,
  and the registry call stands before the two updates it cannot undo, since it is proved never to fail.
- ConnSegment.Segment.ImportSlices: what the calls on a segment do after a slice outside its slab was recorded.
- ConnSegment.Segment.RemoveImported: the run ends where a lookup is undefined.
- Exporting, deserialising and releasing single slices, and local allocation, import and removal of the device
  segment, which repeat the host segment's with driver calls in place of the mapping.
- ReserveChunks.GvaReserveMemory: requires a size whose chunk is not zero bytes, since the loop of the source never ends
  on any other (`ChunkSplits` says which those are); the driver's answers are a parameter.
- UserSegment.HistoryStaysInStep: histories that give out more than 65536 indices, which then come round; step by step
  they are covered by `ImportConsistentIff`, and `CountComesRound` is one that goes wrong.
- UserSegment.Segment.RegisterMemory: driver calls succeed and the names they give are not kept. The same for
  `ReleaseSliceMemory`. `CloseMemory` is not modelled.
- UserSegment.Segment.ImportSliceInfo: opening the remote memory is a parameter; the registration with the registry
  that follows, and peer-device switches, are not modelled.
- UserSegment.Segment.RemoveSliceInfo: closing the remote memory and removing it from the registry are not modelled.
- Barrier.BarrierSafety: runs in which no socket call fails or times out; a process that stops taking steps is covered.
- Benchmark.PhasesExclude: runs in which no barrier fails and all processes run the same directions.
- AllReduce.FinishedRankSeesAllResults: half-precision addition is an arbitrary operation on integers, and flag and
  data accesses are sequentially consistent; loading a rank's input is one step before that rank's cores start.
- BatchCopy.AllThrough: destinations meet neither each other nor a source, lengths fit 32 bits, and the share
  arithmetic is on naturals, without the 32-bit wrap of a descriptor count near its limit; memory is sequentially
  consistent.
- The single-copy kernel `hybm_copy_kernel`: its size subtraction needs a condition on the length that the file does
  not state.
- Dynamic loading of drivers, logging, tracing, argument parsing, result printing and the Python bindings.
