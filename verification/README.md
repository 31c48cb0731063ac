# DPI segment rings: a verified model

DPI moves data from remote writers to a local consumer through rings of segments in RDMA memory. Writer and consumer
exchange no messages: they poll the flags, the counters and the link in the 24-byte header of each segment, and, in the
latency-optimised variant, a shared counter word in front of the ring. This project models that protocol in both
variants, the allocator and the ring layout below it, the registry that hands rings out, the consumer that goes round
many rings, the reader that dumps closed rings, and the send-queue bookkeeping of a connection.

How it is built:

- `BwProtocol` and `LatProtocol` are transition systems with one step per action of the writer, the network or the
  consumer. A schedule is any sequence of such steps, so a theorem about all schedules is a theorem about every
  interleaving. A posted bandwidth write names a range of the staging buffer, or the writer's header copy, and the
  network reads it when it lands the write, byte by byte; so reusing the staging buffer too early would deliver wrong
  bytes. The three (bandwidth) or four (latency) stores that release a segment are separate steps. The loads of a scan, and those of a
  take, are one step; `BwLoads` and `LatLoads` make the first of them alone, with any steps of the others before the rest, and prove
  that this adds no behaviour.
- Nothing is assumed about what payload areas and staging buffers hold at the start: it is part of the parameters. `RingStart`
  shows that a ring `NodeServer` has just written is such a start, whatever the memory held.
- `BwInvariant` and `LatInvariant` hold the inductive invariants. The counts of published, taken and released segments
  carry them. `BwWriterSide` and `LatWriterSide` hold what the writers keep on a ring of any size, one segment too, whatever the
  iterator does there. `*Theorems`, `*Progress`, `*Inevitable`, `*OneSegment`
  and `LatPayload` hold what follows.
- `RoundRobin` composes any number of rings of both kinds with one consumer; `RoundRobinTheorems` proves delivery,
  fairness and draining for the whole buffer.
- The classes (`BufferWriterBW.BufferWriter`, `BufferWriterLat.BufferWriter`, `BufferIterator.BufferIterator`,
  `SendQueue.RDMAClient`) follow the source's methods, loops and fields. `Valid()` says that the fields are the state
  some schedule of the protocol leads to, and every method extends that schedule, so each assignment has to be a step
  of the protocol. What the other parties do at each RDMA call, or each access of the iterator, is a sequence `future` about which nothing is
  assumed.
- `RDMAManager.MemoryManager`, `NodeServer.Server`, `RegistryServer.Server` and `BufferReader.Reader` are proved against
  functions on values (`RdmaMemory`, `RdmaTheorems`, `RingLayout`, `Registry`), about which the theorems are; what
  the registry's answers mean is `RegistryAnswers`. The node's memory
  is bytes at addresses; headers and counter words are encoded to bytes and decoded again, so overlaps count, and the reader copies
  what lies there.

Things the proofs turned up, kept as the code has them:

- An iterator needs two segments per ring. For the bandwidth ring the exact condition is that the ring has two segments
  or the whole stream fits into one: otherwise some run retires the ring with nothing but the first segment's bytes delivered, for
  every stream and every staging size (`BwOneSegment.ExactlyOnceIffItFits`, `BwOneSegment.OneSegmentRingLosesData`). For
  the latency ring it is two segments (`LatOneSegment.ExactlyOnceIffTwoSegments`).
- `NodeServer` writes a ring even if it got no memory for it, at offset 0. Existing rings and counter words survive a request if and only if
  the allocation succeeds or nothing in use lies where a ring at 0 is written (`NodeServer.RingsSurviveExactly`). A refused request
  overwrites the credit of a latency ring at 0 (`NodeServer.RefusedRequestOverwritesCredit`), and a memory that one such
  ring fills gets there with the next request of either kind (`NodeServer.RefusedRequestIsReachable`).
- `BufferWriterLat::close` stamps the segment size as the last message's counter. A shorter last message can always be
  delivered padded with stale bytes (`LatTheorems.ShortLastMessageIsPadded`; which, `LatPayload.PaddedWithStaleBytes` says); a full one never is.
- `internalFree` adds up offsets where it should remember the last one, and finds no place behind the last free block, so it can
  refuse a block and lose it. `RdmaMemory.FreeSucceedsExactly` says when, `RdmaTheorems.RunKeepsInv` that memory is lost exactly then, and
  `RdmaTheorems.RefusedFreeIsReachable` that every memory of at least two bytes gets there; freeing an offset that is not
  in use can leave an empty block in the list (`RdmaMemory.FreeOfUnused`).
- `restoreMemStateSnapShot` skips the gap behind the first used block if that block is not at 0. `RdmaTheorems.RestoreIsExact`
  says when that matters, and `RdmaTheorems.InexactRestoreIsReachable` that every memory of at least five bytes gets there.
- A register request for a taken name is refused but still resets the join counter. In every run a ring is handed to two writers if and only
  if the buffer has a ring and its name is registered, joined, registered again and joined again, in this order
  (`Registry.HandedOutOnceExactly`); `Registry.ReRegisteringHandsOutAgain` is such a run on any nodes with room for a ring.
- The comment on `has_next` calls it a blocking check; it blocks while rings are open and empty and returns false only
  when every ring has been erased, which is what is proved of it.

## Model

| member | source | states |
|---|---|---|
| SegmentHeader.FlagWordRefinesHeader | src/utils/Config.h:153-169 | For every 64-bit flag word, each flag setter changes exactly its own flag of the three, whatever the other bits are |
| SegmentHeader.HeaderRoundTrip | src/utils/Config.h:153-169 | A header whose numbers fit 64-bit words is read back from its 24 bytes as it was written |
| SegmentHeader.HeaderPlaces | src/utils/Config.h:153-169 | The counter lies at byte 0, the link at 8, the flag word at 16, with writeable, consumable and end as its bits 1, 2 and 4 |
| SegmentHeader.FlagWordIsDecoded | src/utils/Config.h:161-168 | The flag word written to memory reads, through the bit masks, as the header's three flags |
| BwProtocol.Init | src/dpi/BufferWriter.h:224-251 | The state a new writer and a new iterator meet on a fresh ring, with any payload and staging contents, satisfies the memory-safety invariant |
| BwProtocol.StartAppend | src/dpi/BufferWriter.h:263-277 | Taking a call of any length, longer than the staging buffer too, keeps memory safety |
| BwProtocol.SuperAppend | src/dpi/BufferWriter.h:294-323 | From any in-bounds state, neither the staged range nor the posted write leaves the staging buffer or the segment |
| BwProtocol.StageAndPost | src/dpi/BufferWriter.h:325-343 | Every posted range lies inside the segment's payload area and inside the staging buffer |
| BwProtocol.PollNext | src/dpi/BufferWriter.h:373-385 | The link the writer follows always leads to a segment of the ring |
| BwProtocol.StartClose | src/dpi/BufferWriter.h:279-289 | The closing header's counter never exceeds the segment size |
| BwProtocol.LandStep | src/net/rdma/RDMAManagerRC.h:59-113 | Landing any posted write, byte by byte, stays inside the segment it was posted to and keeps every link and counter in range |
| BwProtocol.ConsumeStep | src/dpi/local_iterators/BufferIterator.h:34-109 | Every segment the consumer reads, stores to or follows a link to is one of the ring's; the loads made in one step are justified by BwLoads.LoadsMayBeMerged |
| BwInvariant.WriteableMeansFree | src/dpi/BufferWriter.h:377-382 | The flag the writer polls is exact: the next segment is writeable if and only if its previous use has been released |
| BwInvariant.ConsumableMeansPublished | src/dpi/local_iterators/BufferIterator.h:47-67 | The flags has_next tests are exact: end mark seen iff everything is taken after close, consumable iff published and not taken |
| BwInvariant.StepInv | src/dpi/BufferWriter.h:263-391 | Every step of writer, network and consumer keeps the invariant: published segments intact, free ones free, staged ranges intact, every appended byte accounted for |
| BwTheorems.AfterInv | src/dpi/local_iterators/BufferIterator.h:34-109 | Every schedule from a fresh ring keeps it |
| BwTheorems.DeliversTheStream | src/dpi/local_iterators/BufferIterator.h:34-87 | In every interleaving the bytes returned are a prefix of the bytes appended, and all of them once the ring is retired, which happens only after close |
| BwTheorems.PublishedIsCut | src/dpi/BufferWriter.h:263-323 | After close, on a ring of any size, the published segments are the appended stream cut at the segment size, however it was split into calls and for every staging size |
| BwTheorems.NothingIsPending | src/dpi/BufferWriter.h:263-323 | Between calls, on a ring of any size, every byte appended is in a published segment or in the one being filled |
| BwTheorems.PollingMeansFull | src/dpi/BufferWriter.h:377-382 | A writer that polls a segment it does not get, with two segments or more, has run out of them: all of the ring are published and not released |
| BwWriterSide.OneSegmentRun | src/dpi/BufferWriter.h:263-391 | On a one-segment ring every schedule keeps the writer's side: stream, staged ranges, pieces and flags, although the iterator misbehaves there |
| BwTheorems.Ownership | src/dpi/BufferWriter.h:325-391 | No writer or network step changes a consumable or held segment, header flushes included; no consumer step changes the segment being filled |
| BwTheorems.HeldBytesAreStable | src/dpi/local_iterators/BufferIterator.h:73-109 | The bytes behind the returned pointer stay the returned ones until the next call to next has released them |
| BwTheorems.StagedBytesSurvive | src/dpi/BufferWriter.h:325-343 | On a ring of any size, every posted and uncompleted payload write still finds in the staging buffer the bytes of the stream it was posted for |
| BwTheorems.LinksArePreserved | src/dpi/BufferWriter.h:362-391 | In every run, on a ring of any size, every header keeps the link it was initialised with, although the writer copies whole headers back |
| BwLoads.LoadsMayBeMerged | src/dpi/local_iterators/BufferIterator.h:48-84 | With any steps of writer and network between the first load of a scan, a release or a take and the rest, the whole state afterwards is that of a run in which the loads are made together |
| BwProgress.StepMeasure | src/dpi/BufferWriter.h:294-391 | Each useful step decreases a measure that only calls increase |
| BwProgress.FiniteWork | src/dpi/BufferWriter.h:263-391 | The number of useful steps of any schedule is bounded by the calls in it, so append and super_append end when segments are released |
| BwProgress.UselessChangesNothing | src/dpi/BufferWriter.h:378-382 | A step that is not useful changes nothing but the header copy a failed poll has read |
| BwProgress.NoDeadlock | src/dpi/BufferWriter.h:378-382 | Somebody has a useful step unless all is delivered; whenever the writer spins on the next segment, the consumer has one |
| BwProgress.CanFinish | src/dpi/local_iterators/BufferIterator.h:34-70 | From every reachable state the parties can deliver everything published without further calls |
| BwProgress.ClosedRingsDrain | src/dpi/local_iterators/BufferIterator.h:34-70 | After close every run can be continued until the ring is retired with exactly the cut of the stream delivered |
| BwInevitable.ClosedRingsAlwaysDrain | src/dpi/local_iterators/BufferIterator.h:34-70 | After close any sequence of rounds in which writer, network and consumer each have a turn, longer than the calls have cost, ends with the ring retired and exactly the cut of the stream delivered |
| BwOneSegment.ExactlyOnceIffItFits | src/dpi/local_iterators/BufferIterator.h:73-87 | For every ring and stream: no run that retires the ring loses a byte, and no run delivers anything but published segments in order, if and only if the ring has two segments or the stream fits into one |
| BwOneSegment.OneSegmentRingLosesData | src/dpi/local_iterators/BufferIterator.h:73-109 | On a one-segment ring, for every longer stream and every staging size, a run retires the ring with only the first segment's bytes delivered |
| BufferWriterBW.BufferWriter.constructor | src/dpi/BufferWriter.h:224-251 | The fields of a new writer are the protocol's initial state, with no step taken |
| BufferWriterBW.BufferWriter.Complete | src/dpi/BufferWriter.h:345-349 | A signaled header write returns with nothing in flight |
| BufferWriterBW.BufferWriter.CopyIn | src/dpi/BufferWriter.h:328-336 | The staging buffer holds the data at the given place and is otherwise unchanged |
| BufferWriterBW.BufferWriter.WriteToSegment | src/dpi/BufferWriter.h:325-343 | One staged write, flushed first if and only if the buffer wraps, is a step of the protocol, hands over exactly those bytes, and goes behind the last one unless it wraps |
| BufferWriterBW.BufferWriter.Flush | src/dpi/BufferWriter.h:332-337 | Before the staging buffer wraps, everything posted has landed |
| BufferWriterBW.BufferWriter.PostBytes | src/dpi/BufferWriter.h:328-342 | The bytes are in the staging buffer, the posted range names exactly them, offset and m_sizeUsed have moved past them |
| BufferWriterBW.BufferWriter.StageAndPost | src/dpi/BufferWriter.h:325-343 | The staged write is the protocol's step, and exactly those bytes of the call are handed over |
| BufferWriterBW.BufferWriter.Publish | src/dpi/BufferWriter.h:364-373 | The header that publishes the segment has landed when the next segment, the one linked in the header read before, is polled |
| BufferWriterBW.BufferWriter.ReadHeader | src/dpi/BufferWriter.h:351-359 | The header read is the next segment's, and the writer owns that segment, empty, exactly if it is writeable |
| BufferWriterBW.BufferWriter.AwaitSegment | src/dpi/BufferWriter.h:377-385 | Returns owning the segment polled, empty; or still polling, only if that segment is not writeable and nobody will move any more |
| BufferWriterBW.BufferWriter.GetNextSegment | src/dpi/BufferWriter.h:362-391 | Publishes the full segment and returns owning the segment linked in its header, empty; it is left polling only while that one is not writeable |
| BufferWriterBW.BufferWriter.SuperAppend | src/dpi/BufferWriter.h:294-323 | The recursion terminates and hands over the whole piece, split over as many segments as it takes; it is left polling only at a segment that is not writeable |
| BufferWriterBW.BufferWriter.Append | src/dpi/BufferWriter.h:263-277 | On return every byte appended so far is in a published segment or in the one being filled, in order; the writer is left polling only when nobody will move any more and, with two segments or more, all segments of the ring are published and not released |
| BufferWriterBW.BufferWriter.Close | src/dpi/BufferWriter.h:279-289 | On return the published segments are the appended stream cut at the segment size |
| LatProtocol.Init | src/dpi/BufferWriter.h:79-82 | The state a new latency writer meets on a fresh ring, with any payload contents, satisfies the memory-safety invariant |
| LatProtocol.Send | src/dpi/BufferWriter.h:118-138 | From any in-bounds state the computed successor is a segment of the ring and the index stays equal to the position |
| LatProtocol.PollCounter | src/dpi/BufferWriter.h:98-116 | Reading the counter keeps memory safety whatever value it holds |
| LatProtocol.StartClose | src/dpi/BufferWriter.h:142-150 | The stamp goes to a segment of the ring with a counter the segment can hold |
| LatProtocol.ConsumeStep | src/dpi/local_iterators/BufferIterator.h:140-152 | Every segment the consumer reads, stores to or follows a link to is one of the ring's; the loads made in one step are justified by LatLoads.LoadsMayBeMerged |
| LatInvariant.ConsumableMeansLanded | src/dpi/local_iterators/BufferIterator.h:47-67 | The flags has_next tests are exact, also while close stamps a message the consumer may already hold |
| LatInvariant.StepInv | src/dpi/BufferWriter.h:96-176 | Every step of writer, network and consumer keeps the latency ring's invariant |
| LatProgress.AfterInv | src/dpi/BufferWriter.h:96-176 | Every schedule from a fresh ring keeps it |
| LatTheorems.DeliversTheMessages | src/dpi/local_iterators/BufferIterator.h:34-87 | Messages are delivered once each and in order, the ring retires only after the last; exact contents if the stamped message is full |
| LatTheorems.ShortLastMessageIsPadded | src/dpi/BufferWriter.h:142-150 | The condition is exact: after any schedule a shorter last message can be delivered at full segment size |
| LatPayload.PayloadIsOverlay | src/dpi/BufferWriter.h:154-176 | In every run, on a ring of any size, the payload areas hold the landed messages, each over the front of what its slot held |
| LatPayload.PaddedWithStaleBytes | src/dpi/BufferWriter.h:142-150 | A padded last message is the message and behind it what earlier messages, or the start, left in its slot |
| LatTheorems.ClosedRingsDrain | src/dpi/local_iterators/BufferIterator.h:34-70 | After close every run can be continued until the ring is retired and everything delivered |
| LatInevitable.ClosedRingsAlwaysDrain | src/dpi/local_iterators/BufferIterator.h:34-70 | After close any sequence of rounds in which each party has a turn, longer than the calls have cost, ends with the ring retired and every message delivered |
| LatTheorems.CreditsAreConserved | src/dpi/BufferWriter.h:96-140 | Credits = known counter - messages sent; known counter <= counter word = n + released; at most n messages unreleased |
| LatWriterSide.CreditsOfWriter | src/dpi/BufferWriter.h:96-140 | The writer's half of it on a ring of any size: credits left are those known and not spent, with nothing in flight every message sent has landed, and the message that spends the last credit is waited for |
| LatTheorems.NoOverwrite | src/dpi/BufferWriter.h:154-176 | A message never lands on a consumable or held segment, and no step changes such a segment's payload |
| LatTheorems.HeldBytesAreStable | src/dpi/local_iterators/BufferIterator.h:140-152 | The bytes behind the returned pointer stay the returned ones until the credit has been returned |
| LatTheorems.LinksArePreserved | src/dpi/BufferWriter.h:118-128 | The successor the writer computes and writes always equals the link of the ring's layout |
| LatLoads.LoadsMayBeMerged | src/dpi/local_iterators/BufferIterator.h:48-84 | The same for a latency ring, also when the end stamp lands between the loads |
| LatLoads.ReleaseLoadsMayBeMerged | src/dpi/local_iterators/BufferIterator.h:142-144 | With the two loads of prev's flags and the first store of a release all apart, the outcome is that of the step made at the store |
| LatProgress.StepMeasure | src/dpi/BufferWriter.h:96-176 | Each useful step decreases a measure that only calls increase |
| LatProgress.FiniteWork | src/dpi/BufferWriter.h:96-150 | The number of useful steps of any schedule is bounded by the calls in it |
| LatProgress.NoDeadlock | src/dpi/BufferWriter.h:98-116 | Whenever the writer spins for credit, a message can land, credit is there already, or the consumer can move |
| LatOneSegment.ExactlyOnceIffTwoSegments | src/dpi/local_iterators/BufferIterator.h:73-87 | All schedules deliver no more messages than were sent if and only if the ring has two segments |
| BufferWriterLat.BufferWriter.ReadCounter | src/dpi/BufferWriter.h:193-201 | The value known is the counter word; the read succeeds iff it has changed, and then, and only then, there is credit |
| BufferWriterLat.BufferWriter.AwaitCredit | src/dpi/BufferWriter.h:98-116 | Returns with credit, or still without when nobody will move any more and the counter word is the known value |
| BufferWriterLat.BufferWriter.SendMessage | src/dpi/BufferWriter.h:130-139 | With credit in hand the message is sent for one credit; it has landed on return if and only if the caller asked for a signal or it spent the last credit |
| BufferWriterLat.BufferWriter.Send | src/dpi/BufferWriter.h:118-138 | The fields change exactly as the protocol's Send says, from any in-bounds state |
| BufferWriterLat.BufferWriter.Append | src/dpi/BufferWriter.h:96-140 | The message is handed over, credits left are those known and not spent, and it has landed on return iff it was signaled or spent the last credit; the writer is left waiting only when every credit ever given has been spent on an earlier message; with credit in hand the counter is not read |
| BufferWriterLat.BufferWriter.Close | src/dpi/BufferWriter.h:142-150 | On return the end stamp and every message have landed |
| RoundRobin.ConsumerStep | src/dpi/local_iterators/BufferIterator.h:34-87 | The pointer never leaves the list and every list entry names a ring, through wrap-around, erasure, scan and take |
| RoundRobin.ConsumeEffect | src/dpi/local_iterators/BufferIterator.h:47-67 | A ring is passed by only if nothing is due on it and retired only if nothing waits in it; a call to next ends in one delivery |
| RoundRobin.ErasedRing | src/dpi/local_iterators/BufferIterator.h:62-67 | Erasing removes exactly the ring at the pointer and keeps the order of the others |
| RoundRobin.RunInv | src/dpi/local_iterators/BufferIterator.h:34-109 | In every run the list holds exactly the rings not retired, next is under way on none but the one pointed at, and each delivery is one call to next |
| RoundRobinTheorems.EveryRingDelivers | src/dpi/local_iterators/BufferIterator.h:34-87 | Over all interleavings of all writers with the one consumer: every ring delivers in order, leaves the list only when all of it is delivered, and the list is empty only when all of every ring is |
| RoundRobinTheorems.RoundRobinIsFair | src/dpi/local_iterators/BufferIterator.h:41-87 | A ring with something to deliver is among the next k rings served (k in the list) and needs at most 6 k consumer steps, through wrap-around and erasure; a ring that is merely over is erased as soon |
| RoundRobinTheorems.BufferDrains | src/dpi/local_iterators/BufferIterator.h:34-70 | Once all writers have called close, every run can be continued to where has_next answers false with every stream delivered |
| RoundRobinInevitable.BufferAlwaysDrains | src/dpi/local_iterators/BufferIterator.h:34-70 | Once all writers have called close, any sequence of rounds in which the consumer and every ring's writer and network have a turn, as long as the work left, ends where has_next answers false with every stream delivered |
| BufferIterator.FlagsAreExact | src/dpi/local_iterators/BufferIterator.h:47-67 | The two flag tests decide exactly whether the ring has something to deliver or is over |
| BufferIterator.AccessesAreSteps | src/dpi/local_iterators/BufferIterator.h:101-109 | Each store of the iterator, the loads of a scan together, and the loads of a take together are one step of the protocol |
| BufferIterator.BufferIterator.constructor | src/dpi/local_iterators/BufferIterator.h:19-27 | One list entry per ring in the order of the entry segments, pointer at the first, no step taken |
| BufferIterator.BufferIterator.MarkPrevSegment | src/dpi/local_iterators/BufferIterator.h:140-152 | prev's segment is free again, counter, flags and link, and a latency ring's counter word has grown by one; nothing changes for a detached prev; iter and prev stay; nothing is delivered |
| BufferIterator.BufferIterator.ReturnSegment | src/dpi/local_iterators/BufferIterator.h:140-152 | The stores in order, others moving in between, leave prev's header free and the credit returned; the take comes next |
| BufferIterator.BufferIterator.HandBack | src/dpi/local_iterators/BufferIterator.h:146-149 | The last store and the credit, with others moving in between: prev's segment is free, the counter word has grown by one on a latency ring |
| BufferIterator.BufferIterator.IncrementCounter | src/dpi/local_iterators/BufferIterator.h:148-149 | The counter word grows by exactly one, with prev's header already free |
| BufferIterator.BufferIterator.Take | src/dpi/local_iterators/SegmentIterator.h:53-78 | iter's payload of counter bytes is delivered, prev becomes iter, iter becomes its link, the pointer moves on; no other ring delivers |
| BufferIterator.BufferIterator.Next | src/dpi/local_iterators/BufferIterator.h:73-87 | Returns the next piece of the stream of the ring has_next found, and moves to the next ring, ready for the next call |
| BufferIterator.BufferIterator.Erase | src/dpi/local_iterators/BufferIterator.h:62-67 | A ring whose end mark is reached leaves the list, the order of the others stays, nothing is delivered |
| BufferIterator.BufferIterator.PassBy | src/dpi/local_iterators/BufferIterator.h:50-55 | The pointer moves past a ring that has nothing due; the rings are unchanged |
| BufferIterator.BufferIterator.Turn | src/dpi/local_iterators/BufferIterator.h:41-68 | One round of the loop finds data waiting, erases a ring, or extends the run of rings known to have nothing due |
| BufferIterator.BufferIterator.HasNext | src/dpi/local_iterators/BufferIterator.h:34-70 | Yes only with data waiting at the pointer; no exactly when all rings are erased, and then all is delivered; it spins only while nothing is due on any ring |
| BufferIterator.BufferIterator.WaitForNext | src/dpi/local_iterators/BufferIterator.h:89-98 | Yes with exactly one delivery, the next piece of the ring served; no exactly when every ring is erased, and then all is delivered; it spins only when nobody will move any more and nothing is due on any ring; so data waiting forces a delivery |
| RdmaMemory.FirstFitIsFirst | src/net/rdma/RDMAManager.h:328-347 | The block used is the first one large enough, and there is none only if no block is |
| RdmaMemory.AllocExactly | src/net/rdma/RDMAManager.h:328-347 | The result is the front of the first free block large enough, was free, and exactly its bytes move from free to used; otherwise nothing changes |
| RdmaMemory.AllocInv | src/net/rdma/RDMAManager.h:328-347 | Allocation keeps the free list sorted, in bounds, coalesced and disjoint from the used blocks |
| RdmaMemory.MergeKeepsCoalesced | src/net/rdma/RDMAManager.h:283-326 | Merging an inserted block with the neighbours it touches leaves a coalesced list covering exactly the old bytes and the block's |
| RdmaMemory.FreeSucceedsExactly | src/net/rdma/RDMAManager.h:349-383 | free returns true iff the list is empty, or the first block beyond the offset exists and the offsets before it sum to at most the offset |
| RdmaMemory.FreeOfUnused | src/net/rdma/RDMAManager.h:349-383 | A free of an offset not in use changes no byte's owner; on true it leaves an empty block in the list, on false it changes nothing |
| RdmaMemory.FreeInv | src/net/rdma/RDMAManager.h:349-383 | On true the free list gains exactly the block's bytes, on false they are lost from both sides; the invariant survives both |
| RdmaMemory.CoalescedUnique | src/net/rdma/RDMAManager.h:283-326 | A set of bytes has one coalesced free list |
| RdmaTheorems.RunKeepsInv | src/net/rdma/RDMAManager.h:283-383 | Every run of allocations and frees keeps the invariant, and has lost no byte if and only if every free returned true |
| RdmaTheorems.LostStaysLost | src/net/rdma/RDMAManager.h:328-383 | A byte neither free nor in use is never found again by any operation |
| RdmaTheorems.RefusedFreeIsReachable | src/net/rdma/RDMAManager.h:354-382 | In every memory of at least two bytes a legal run reaches a free that is refused |
| RdmaTheorems.AllocFreeRoundTrip | src/net/rdma/RDMAManager.h:328-383 | Freeing what was just allocated restores the heap exactly whenever free returns true |
| RdmaTheorems.RoundTripSucceedsExactly | src/net/rdma/RDMAManager.h:349-383 | When it returns true, exactly; always when first fit split one of the first two free blocks |
| RdmaTheorems.FreeListIsAllGaps | src/net/rdma/RDMAManager.h:254-271 | In a heap that has lost nothing the free list is exactly the gaps between the used blocks |
| RdmaTheorems.RestoreIsExact | src/net/rdma/RDMAManager.h:236-274 | Restore rebuilds the free list iff the first used block is at 0, is the only one, or touches the second |
| RdmaTheorems.RestoreCoversExactly | src/net/rdma/RDMAManager.h:236-274 | For any used blocks the restored list is coalesced and holds every unused byte except the gap behind the first block, if that block is neither at 0 nor the only one |
| RdmaTheorems.SnapshotRoundTrip | src/net/rdma/RDMAManager.h:236-274 | The same for every heap reached from a fresh one by operations in which all frees returned true |
| RdmaTheorems.InexactRestoreIsReachable | src/net/rdma/RDMAManager.h:247-261 | In every memory of at least five bytes a legal run, all frees true, reaches a state that restore does not rebuild |
| RDMAManager.MemoryManager.InternalAlloc | src/net/rdma/RDMAManager.h:328-347 | The in-place loop over the list and the map update compute exactly the first-fit function |
| RDMAManager.MemoryManager.MergeFreeMem | src/net/rdma/RDMAManager.h:283-326 | The iterator walk with two erasures computes exactly the merged list |
| RDMAManager.MemoryManager.InternalFree | src/net/rdma/RDMAManager.h:349-383 | Computes exactly the free function, with the exact success condition and what happens to the bytes in each case |
| RDMAManager.MemoryManager.PushGaps | src/net/rdma/RDMAManager.h:254-271 | The loop appends exactly the gaps behind the used blocks from the given one on |
| RDMAManager.MergeInTurn | src/net/rdma/RDMAManager.h:288-319 | Joining left and then right is the same as joining both neighbours at once |
| RDMAManager.MemoryManager.RestoreMemStateSnapShot | src/net/rdma/RDMAManager.h:236-274 | Computes exactly the restore function on a clean manager |
| RingLayout.OneCycle | src/dpi/NodeServer.h:59-74 | Following the links from the entry visits each of the n segments exactly once and returns to the entry |
| RingLayout.SegmentsAreApart | src/dpi/NodeServer.h:42-57 | The segments are disjoint, inside the allocated block, and leave out the counter word |
| RingLayout.ArithmeticSuccessorIsLinked | src/dpi/BufferWriter.h:118-128 | The successor the latency writer computes in byte offsets is the linked one |
| RingLayout.RingByteIsWritten | src/dpi/NodeServer.h:50-74 | A request changes exactly the bytes of the counter word and of the headers, and what it leaves there does not depend on what was there |
| RingLayout.RingIsWritten | src/dpi/NodeServer.h:59-74 | The headers read from memory afterwards are free and linked into a ring, at any base |
| RingLayout.CounterIsWritten | src/dpi/NodeServer.h:50-56 | The counter word of a latency ring then reads the number of segments; no header overlaps it |
| RingLayout.TouchedInBlock | src/dpi/NodeServer.h:42-74 | Every byte written lies in the block of the requested size |
| NodeServer.SuccessSpares | src/dpi/NodeServer.h:48-74 | After a successful allocation no byte that was in use changes, whatever the memory holds |
| NodeServer.RingsSurviveExactly | src/dpi/NodeServer.h:48-74 | Existing rings and counter words survive a request if and only if the allocation succeeds or nothing in use lies where a ring at offset 0 is written |
| NodeServer.RefusedRequestOverwritesCredit | src/dpi/NodeServer.h:48-74 | After a refused request the word at offset 0 reads 0, or the refused ring's size if that is a latency ring |
| NodeServer.RefusedRequestIsReachable | src/dpi/NodeServer.h:48-74 | A memory that one latency ring fills refuses every further request of either kind, and the ring's counter word is among the bytes written |
| NodeServer.Server.AllocSegments | src/dpi/NodeServer.h:42-74 | One allocation of the right size; the memory is the old one with the ring written at the new block, or at 0 after a refusal; a fresh ring, and the counter of a latency ring, read there; every ring made keeps a block of its own; after a success every byte in use before is unchanged |
| NodeServer.Server.WriteRingTo | src/dpi/NodeServer.h:50-74 | Writes exactly the counter word and the headers of the layout |
| NodeServer.Server.WriteSegmentHeaders | src/dpi/NodeServer.h:59-74 | The loop writes exactly the layout's headers, one after the other |
| NodeServer.Server.CopyTo | src/dpi/NodeServer.h:73 | memcpy: exactly those bytes at exactly that place |
| RingStart.FreshRingIsBwInit | src/dpi/NodeServer.h:59-74 | A ring just written is, segment by segment and with whatever payload was there, the bandwidth protocol's initial ring |
| RingStart.FreshRingIsLatInit | src/dpi/NodeServer.h:50-74 | And with its counter word the latency protocol's |
| RingStart.AnyRingLies | src/utils/Config.h:153-169 | A ring in any state whose counters and offsets fit 64-bit words can be laid into any memory, so that its segments are read there |
| Registry.RingSizeIs | src/dpi/NodeServer.h:42-46 | The size of a ring's block in the registry's proofs is the size the node allocates |
| Registry.RunInv | src/dpi/RegistryServer.cc:118-163 | In every run of register, join and retrieve requests, with others' allocations and frees on the nodes in between, every ring of every buffer is an allocated block of its own on its node |
| Registry.RingsNeverShareAByte | src/dpi/RegistryServer.cc:209-229 | After any register, join and retrieve requests, whatever others allocate and free on the nodes in between, segments of different rings on a node, of one buffer or two, are disjoint |
| Registry.JoinsHandOutInOrder | src/dpi/RegistryServer.cc:68-92 | Between registrations of a name successive joins get the next rings in order, each once, and fail exactly when none is left |
| Registry.ReRegisteringHandsOutAgain | src/dpi/RegistryServer.cc:125-163 | On fresh nodes with room for a ring, register, join, register and join hand the first ring to both writers |
| Registry.HandedOutOnceExactly | src/dpi/RegistryServer.cc:68-163 | In every run from fresh nodes a ring is handed to two writers if and only if the buffer has a ring and its name is registered, joined, registered and joined in this order |
| Registry.HandedOutOnceFrom | src/dpi/RegistryServer.cc:68-163 | The same from any registry in which the name is registered and not yet joined |
| Registry.OtherInv | src/net/rdma/RDMAManager.h:328-383 | An allocation by somebody else, or a free of a block that is no ring's, leaves every ring where it is |
| RegistryAnswers.RegisterAnswersExactly | src/dpi/RegistryServer.cc:125-163 | Register answers true iff the name is new and the node's free blocks have room for all rings asked for; otherwise as many as there is room for are made; the handle stored is the request's with these rings; a taken name changes the join counter alone |
| RegistryAnswers.RegisterStopsShort | src/dpi/RegistryServer.cc:134-147 | If rings are missing afterwards, the node is unknown or none of its free blocks is as large as a ring |
| RegistryAnswers.RingsMadeExactly | src/dpi/RegistryServer.cc:134-147 | The loop makes as many rings as asked for or as there is room for, each with the buffer's segment size |
| RegistryAnswers.AllocTakesRoom | src/net/rdma/RDMAManager.h:328-347 | An allocation succeeds iff the free blocks have room for one more block of the size, and takes the room of one |
| RegistryAnswers.FreshRoom | src/dpi/RegistryServer.cc:209-229 | A fresh node has room for as many rings as fit into its memory |
| RegistryAnswers.AnswersMatchRegistration | src/dpi/RegistryServer.cc:63-110 | After a registration and any requests, retrieve answers with the node, sizes and kind registered and all rings made; join with the same and the next ring, or that none is left |
| RegistryAnswers.AnswersChangeOnlyTheCount | src/dpi/RegistryServer.cc:63-110 | Retrieve changes nothing, join only the count of the buffer's own writers |
| RegistryAnswers.FoundIffRegistered | src/dpi/RegistryServer.cc:196-203 | In every run from fresh nodes join and retrieve find no buffer iff the name has not been registered |
| RegistryServer.Server.CreateRingOnBuffer | src/dpi/RegistryServer.cc:209-229 | Fails on an unknown node or without memory, else yields the ring's entry segment past its counter word |
| RegistryServer.Server.HandleRegister | src/dpi/RegistryServer.cc:125-163 | The in-place loop computes exactly the register function, answer and counter reset included; what the answer means is RegistryAnswers.RegisterAnswersExactly |
| RegistryServer.Server.HandleJoin | src/dpi/RegistryServer.cc:63-94 | Computes exactly the join function; what the answer means is RegistryAnswers.AnswersMatchRegistration |
| RegistryServer.Server.HandleRetrieve | src/dpi/RegistryServer.cc:97-110 | The loop over the entry segments computes exactly the retrieve function |
| BufferReader.Reader.Read | src/dpi/BufferReader.h:34-81 | On closed, unread rings it terminates, stays within the buffer it allocated, and returns the bytes of all rings in order as they lie in the node's memory, with or without headers; null for no rings |
| BufferReader.Reader.ReadRing | src/dpi/BufferReader.h:54-74 | The inner loop copies the whole chain from the entry segment along the links in memory to the end mark, behind what was there |
| BufferReader.Reader.ReadSegment | src/dpi/BufferReader.h:55-74 | One segment's bytes of memory go behind what was copied; it is the last iff it bears the end mark, and otherwise what is left of the chain starts at its link |
| BufferReader.RingsFit | src/dpi/BufferReader.h:44-49 | The size allocated is enough for whatever the rings hold, and is exactly what full rings take |
| BufferReader.BwRingIsClosed | src/dpi/BufferReader.h:54-74 | A closed bandwidth ring nothing was taken from, of any size from one segment on and wherever it lies in memory, holds the appended stream along its links |
| BufferReader.LatRingIsClosed | src/dpi/BufferReader.h:54-74 | A closed latency ring nothing was taken from, of any size from one segment on and wherever it lies in memory, holds the messages along its links if and only if the last one is full |
| BufferReader.ReaderInvertsWriters | src/dpi/BufferReader.h:34-81 | For writers of either kind, each with its own sizes and staging buffer, after any schedules that closed every ring unread, read returns from the memory they lie in the concatenation of all appended streams in ring order |
| BufferReader.DumpInvertsWriters | src/dpi/BufferReader.h:67-71 | What read returns with headers, taken apart by the headers' counters and end marks, is every segment of every ring, ring by ring: payload, counter, link as a byte offset, and each flag |
| SendQueue.SendQueueBound | src/net/rdma/RDMAClient.h:153-160 | In every run with any mix of requested signals at most RDMA_MAX_WR work requests are uncompleted and as many slots in use |
| SendQueue.ForcedEveryMax | src/net/rdma/RDMAClient.h:153-160 | A signal is forced on every RDMA_MAX_WR-th post and on no other |
| SendQueue.BoundIsTight | src/net/rdma/RDMAClient.h:153-160 | The bound is reached |
| SendQueue.WaitMeansDone | src/net/rdma/RDMAManagerRC.h:91-110 | A waited call returns with nothing in flight, having polled its own completion |
| SendQueue.RDMAClient.CheckSignaled | src/net/rdma/RDMAClient.h:153-160 | The counter moves as the specification of SendQueue.ForcedEveryMax says, and the answer is a signal if asked for or forced |
| SendQueue.RDMAClient.PollCompletion | src/net/rdma/RDMAManagerRC.h:91-110 | One poll either leaves fewer requests in flight or finds the caller's own completion with nothing in flight |
| SendQueue.RDMAClient.RemoteAccess | src/net/rdma/RDMAManagerRC.h:59-113 | A signaled or forced post returns with the queue empty, any other is added to the queue and not waited for; the queue never overflows; the poll loop ends |

## Left out

- ibverbs, rdma_cm, queue-pair set-up, multicast, UD transport, ZMQ and protobuf: foreign libraries. Kept is that RC writes land in order and that a waited signaled post means that all earlier posts are done, the latter derived in `SendQueue`.
- requestRead, pollSend, the atomics and several connections sharing one work-request counter: the ring protocols do not use them.
- Failing RDMA calls: every post and read succeeds; the error returns of append and close are not modelled.
- Cache and compiler memory ordering: the consumer's stores take effect in program order, header reads and writes are atomic.
- Staging-buffer reuse of the latency writer: its wrap has no flush (`src/dpi/BufferWriter.h:164-168`), so its messages are posted by value and land in one piece, flags and payload together.
- The memcpy of the latency writer copies the payload only; `src/dpi/BufferWriter.h:161-170` adds the header size to the length before the copy and reads past the caller's data.
- Appending after close, closing a latency ring before the first append (the source stamps offset 0), and latency messages larger than a segment (the source writes over the next header): calls the protocols do not take.
- The roll-over branch of the latency counter (`src/dpi/BufferWriter.h:106-110`): counters are unbounded and never fall, so it is never taken. Offsets, sizes and counters elsewhere are unbounded too; words in memory hold 64 bits, and NodeServer.Server.AllocSegments and RingStart.AnyRingLies ask that sizes and offsets fit them.
- Forced and requested signals inside the writers' own protocols: a wait the caller or checkSignaled adds only removes interleavings; the latency writer's wait on its last credit and the caller's signaled flag are modelled.
- Poll loops of the writers give up when `future` is used up, where the source spins on; has_next does so after one more full round.
- BufferWriterBW.BufferWriter.WriteToSegment: m_sizeUsed is updated here instead of by the caller right after the call.
- BufferReader.Reader.Read: stated for rings that are closed and not consumed from; on an open ring the source loops until it meets an end mark, or for ever.
- NodeServer.Server.AllocSegments: a request has a size of at least a byte that fits 64 bits, and segments of at least a header, as the registry's requests have; the source's multiplication would wrap.
- RegistryServer.Server.CreateRingOnBuffer: the registry sees the nodes' allocators only; what a refused request does to the node's memory is stated in NodeServer.
- The rest of the allocator: localFree by pointer, printMem, statistics; the free flag of list entries, always true in the list. Freeing an offset that is not in use is modelled (it inserts an empty block), but the invariants are for frees of allocated offsets.
- The append-segment and create-ring requests of the registry: the first pushes whatever segment the caller names, so nothing said of rings holds of its segments. The buffer's name in an answer, which is the one asked for. Requests carry node ids from 1 and at least one segment per ring.
- SegmentIterator's equality and its prevIsEndSegment field: the ring protocols never look at them.
- C++ object lifetime, iterator copies and the leaked dummy header of the end iterator.
- The `memory-api` wrappers, the deprecated segment-ring creation, the commented-out BufferConsumer, Config file parsing, logging, threads, benchmarks and tests: nothing hard of their own.
