# Verified model of the RakNet transport core

This project models the reliable, ordered transport of the RakNet implementation and
proves what it guarantees. Two sessions exchange datagrams over a network that may lose,
repeat and reorder everything; out of that they make an ordered stream of payloads in each
direction.

What is in it, bottom up:

* `Frames.dfy` has the values that travel: frames and frame sets.
* `SendQueue.dfy` and `PacketQueue.dfy`: batching under the MTU, numbering, and
  retransmission under fresh numbers. The first says what each operation makes of the
  state and what that means, the second is the queue updated in place. `Batching.dfy` says
  which frames share a datagram.
* `AckQueue.dfy`: which numbers arrived, and the ranges and gaps reported back.
* `ReceiveQueue.dfy` and `ReceivedQueue.dfy`: reassembly of fragments and release in order.
  `OrderedDelivery.dfy` shows what they make of an honest sender's frames.
* `Sessions.dfy`: fragmentation, and the two halves of a session. `Fragmentation.dfy` says
  in numbers how a payload is cut, `Handing.dfy` what a receiver hands on. `Session.dfy` is
  the session updated in place, with its loops over fragments, records and frames.
* `Wire.dfy`, `FrameCodec.dfy`, `FrameIO.dfy`, `AckCodec.dfy`: the binary format, as
  functions with their round trips and as the code that moves a cursor or appends to a
  buffer. `Layout.dfy` says byte by byte where each field stands, and exactly what decodes.
* `Link.dfy`: one direction of a connection as a transition system, with its inductive
  invariant. `Guarantees.dfy`, `Progress.dfy`, `Timing.dfy`, `Sizes.dfy` and
  `Numbering.dfy` prove what holds over every run.
* `Endpoint.dfy`, `AckTransfer.dfy`, `Feedback.dfy`: a whole session as a value, what one
  report does on its way back, and what feedback of any origin does to the next emission.
* `World.dfy` and `Exchange.dfy`: two sessions that exchange byte strings. Each act of
  either is a possible step of one `Link` or of none, and everything on the network is what
  the two links put there, so every exchange of bytes is a run of two `Link`s.
* `Registry.dfy` and `Server.dfy`: the server's table of connections and its allocation of
  worker threads.

The main results:

* What the receiver releases is always a prefix of what was sent, for every interleaving of
  loss, repetition, reordering, NACKs and timeouts (`DeliveryIsAPrefix`; over bytes and in
  both directions at once, `BytesDeliverInOrder`).
* No frame is dropped by the sender before the receiver has it (`NothingIsDiscardedEarly`),
  an empty sending queue means that everything has been delivered
  (`QuiescenceIsCompleteIff`), and from every reachable state some run gets there
  (`DeliveryCanComplete`; over bytes, `LeftCanComplete` and `RightCanComplete`).
* With a peer that runs this code no lookup of any possible step misses
  (`WindowStaysWhole`), and over bytes both ends can flush as long as their counters fit
  24 bits, and can always report (`BytesNeverBlockAFlush`, `ReportsAlwaysFit`). With any
  other peer, exactly which packets make the next emission stop (`PacketIsHarmlessIff`).
* Every exchange of bytes is a run of each direction (`ExchangeIsTwoRuns`).
* What an emission holds, set by set (`EmissionIsExact`), and when: without feedback
  a set is put out again no sooner than 1001 ms after it got its number
  (`NotBeforeItsTime`), and with the first flush after that (`StaysIff`).
* At every point of every exchange of bytes, an end has handed on its ordered stream, and
  besides it every frame without an order index, as it came (`HandedIsExact`,
  `UnorderedArrive`).
* Exactly which frames and frame sets survive the wire (`FrameSetRoundTripIff`), exactly
  which bytes decode (`DecodesIff`, `SetDecodesIff`), and that whatever decodes has a normal
  form (`DecodedReadsBack`).

Five things the code does that a caller might not expect come out as results:

* A payload that is split, and whose length is a multiple of the fragment size, loses its
  last fragment's worth of bytes: the last fragment is cut to `len % max`, which is zero
  (src/session.rs:237-238). `WholePayloadCarriedIff` says exactly which lengths arrive
  whole, and `MultipleOfFragmentSizeLosesBytes` names one that does not.
* A payload of 64 KiB or a multiple of it uses up an order index without sending any
  frame, because its length is cast to 16 bits (src/session.rs:229-231). Everything sent
  after it is held back for good. `QuiescenceIsCompleteIff` and `VanishedPayloadBlocks` say
  so, and `SixtyFourKilobytesVanish` names one.
* A payload that is too long for one frame, but whose length, cast to 16 bits, fits one
  fragment, completes again on every repetition of that fragment, because a finished split
  id is forgotten by the pool. `RepetitionCompletesAgainIff` says exactly which lengths,
  and `OneFragmentCompletesTwice` names one. `RunMatches` shows that it makes no difference
  to what is released.
* An ACK or a NACK that takes away a number still waiting to be emitted makes the next
  emission stop at the hole (src/packetqueue.rs:116-119); so does a NACK for a range that
  begins at an outstanding number and reaches past the last one emitted, because it meets
  the set again under its fresh number. `PacketIsHarmlessIff` says exactly which packets,
  `EarlyAckStopsFlush` and `OverlongNackStopsFlush` name one each. No peer that runs this
  code sends such a packet.
* A set is stamped when it gets its number, not when it is emitted
  (src/packetqueue.rs:54-60). A fragment gets its number when it is handed over, so one that
  waits a second for its first emission is put out again by the next flush, be it a
  millisecond later: `WaitingSetGoesOutAgain`. A set that is numbered by the flush that
  emits it is not emitted again by timeout for 1001 ms (`FlushedStays`).

Every class method ties the new state to a function of the old one, and the lemmas beside
it say what that function achieves. An iteration over a hash table is in an arbitrary order;
where the order shows in the result it is a ghost list. Time is a number of
milliseconds, passed in.

## Model

| member | source | states |
|---|---|---|
| SendQueues.AddFrameKeeps | src/packetqueue.rs:35-61 | A frame handed over leaves every number due for emission in the queue, the batch's recorded size equal to the lengths in it and below the budget, and no fragment in the batch. |
| SendQueues.AddFrameCounts | src/packetqueue.rs:35-61 | Handing over a frame makes the queue hold that frame once more, and no other frame more or less often. |
| SendQueues.RenumberAllEffect | src/packetqueue.rs:86-110 | Whatever the order and repetition of a list of emitted numbers, renumbering gives each listed set that is queued one fresh number, consecutively and in the order of first mention, with its frames unchanged, and leaves all others where they are. |
| SendQueues.RenumberAllCounts | src/packetqueue.rs:86-110 | Renumbering keeps how often every frame is held. |
| SendQueues.ResendAllIsRenumberAll | src/packetqueue.rs:86-110 | The NACK path and the timeout path renumber alike, although one looks in the time stamps and the other in the queue. |
| SendQueues.EmissionCounts | src/packetqueue.rs:68-122 | Closing the batch, renumbering what is overdue and emitting keep how often every frame is held, for any order of the hash table. |
| SendQueues.EmissionIsComplete | src/packetqueue.rs:68-122 | Every set that was emitted and got its number more than 1000 ms ago is put out again in this same emission, with its frames unchanged and under a number never used before, and leaves its old number. |
| SendQueues.EmissionIsExact | src/packetqueue.rs:68-122 | An emission holds the sets that waited for it under their own numbers, then the closed batch, then the overdue sets, each once, under the next free numbers and with their frames unchanged, and nothing else. |
| SendQueues.NotOverdueStays | src/packetqueue.rs:68-98 | Of the sets emitted before, exactly those that are not overdue keep their number, and their frames. |
| Timing.OverdueIff | src/packetqueue.rs:80-84 | A set is overdue if and only if it has been emitted, is still queued, and got its number more than 1000 ms ago. |
| Timing.StaysIff | src/packetqueue.rs:68-98 | Of the sets emitted before, a flush leaves exactly those under their number that are still queued and got it at most 1000 ms ago, with their frames. |
| Timing.EmissionSize | src/packetqueue.rs:68-122 | An emission holds as many sets as wait, one more if there is a batch, and the overdue ones. |
| Timing.FlushIsQuietIff | src/packetqueue.rs:68-122 | A flush emits nothing if and only if nothing waits, the batch is empty and no set got its number more than 1000 ms ago. |
| Timing.StepStamps | src/packetqueue.rs:54-110 | In every possible step of a direction a set that gets a number is stamped with the time of the step, and a set that keeps its number keeps its stamp. |
| Timing.RenumberAllStamps | src/packetqueue.rs:86-99 | Renumbering stamps the sets with fresh numbers at its own time and leaves the stamps of all others. |
| Timing.NotBeforeItsTime | src/packetqueue.rs:68-122 | Over every run, an emitted set stays under its number, and so is not emitted again, as long as no feedback names it and no flush comes more than 1000 ms after it got that number. |
| Timing.FlushNumbers | src/packetqueue.rs:68-122 | A set that a flush numbers, be it the closed batch or one that is put out again, is emitted by that flush and carries its time. |
| Timing.FlushedStays | src/packetqueue.rs:68-122 | So over every run a set that a flush numbers at time t is not emitted again by timeout before t + 1001. |
| Timing.WaitingSetGoesOutAgain | src/packetqueue.rs:54-60 | A fragment handed over at 0 and emitted at 1001 is emitted again at 1002, because its stamp is from 0. |
| Batching.JoinsTheBatchIff | src/packetqueue.rs:35-53 | A frame joins the batch if and only if it is no fragment and the batch stays below the MTU less 42; otherwise it becomes a frame set of its own under the next number, marked 0x8c or 0x84, and the batch is left alone. |
| Batching.BatchIsEmitted | src/packetqueue.rs:68-78 | With nothing else waiting, an emission begins with the whole batch in one datagram under the next number, and then holds what is overdue. |
| Batching.BatchGoesOutTogether | src/packetqueue.rs:35-78 | Whole frames that together stay below the budget go out in one datagram, in the order in which they were handed over. |
| SendQueues.PreparedIsValid | src/packetqueue.rs:68-122 | After the batch is closed and the overdue sets renumbered, every lookup of the emission loop succeeds, and one number has been used for the batch and for each overdue set. |
| SendQueues.ReceivedAllIsWithout | src/session.rs:111-116 | A list of ACKs, whatever it names, removes exactly the frame sets it names and changes nothing else. |
| SendQueues.ReceivedAllCounts | src/packetqueue.rs:62-67 | The frames held after a list of ACKs and those in the sets it removed add up to the frames held before. |
| PacketQueues.PacketQueue.constructor | src/packetqueue.rs:23-34 | A new queue is empty. |
| PacketQueues.PacketQueue.AddFrame | src/packetqueue.rs:35-53 | The frame joins the batch if it is whole and fits the budget, and otherwise becomes a frame set of its own. |
| PacketQueues.PacketQueue.Add | src/packetqueue.rs:54-61 | A frame set under the next number is stored and stamped as not emitted; any other is ignored. |
| PacketQueues.PacketQueue.Received | src/packetqueue.rs:62-67 | An acknowledged set goes from both tables. |
| PacketQueues.PacketQueue.Tick | src/packetqueue.rs:68-85 | The batch becomes a frame set, and the overdue numbers are listed, each once, in the order of the hash table. |
| PacketQueues.PacketQueue.Readd | src/packetqueue.rs:86-99 | The listed sets that are still queued get fresh numbers, one after the other. |
| PacketQueues.PacketQueue.Resend | src/packetqueue.rs:100-110 | A stamped set gets a fresh number. |
| PacketQueues.PacketQueue.GetPacket | src/packetqueue.rs:111-122 | Returns the sets of the window, in order, after closing the batch and renumbering; both lookups succeed. |
| PacketQueues.PacketQueue.EmitWindow | src/packetqueue.rs:115-121 | The loop returns the sets from the lower end of the window to its upper end and marks them as emitted. |
| AckQueues.ACKQueue.constructor | src/packet.rs:17-23 | A new queue has nothing stored. |
| AckQueues.ACKQueue.Add | src/packet.rs:25-32 | A number that was not reported yet is stored, and the upper end grows with it. |
| AckQueues.ACKQueue.Clear | src/packet.rs:34-52 | Returns the ranges and gaps of the numbers scanned and leaves an empty interval. |
| AckQueues.RangesAreExact | src/packet.rs:34-52 | The reported ranges are sorted, disjoint and not adjacent, and name exactly the stored numbers of the interval. |
| AckQueues.RangesAreUnique | src/packet.rs:34-52 | No other list of such ranges names the same numbers: the ranges are maximal. |
| AckQueues.CoveredRanges | src/packet.rs:34-52 | Read out one after the other, the ranges list the stored numbers in ascending order, each once. |
| AckQueues.GapsAreSorted | src/packet.rs:34-52 | The missing numbers are exactly those of the interval that are not stored, in ascending order. |
| AckQueues.EveryNumberIsReportedOnce | src/packet.rs:25-52 | Over every run, each number below the upper end of the last report has been reported exactly once, as an ACK or as a NACK, in ascending order, and no other has. |
| AckQueues.AckedHaveArrived | src/packet.rs:25-52 | Over every run, what was reported as an ACK, or waits for it, has arrived. |
| AckQueues.ArrivalIsKeptIff | src/packet.rs:25-52 | Over every run, a number has been reported as an ACK, or waits for it, if and only if it arrived at a time when no report had accounted for it yet, in whatever order the numbers came. |
| ReceiveQueues.SplitPacket.GetAll | src/packet.rs:84-90 | Returns the data of the fragments, joined by index. |
| ReceiveQueues.FullMeansAll | src/packet.rs:73-83 | The count of fragments reaches the announced number exactly when every index is present. |
| ReceiveQueues.FragmentIsStored | src/packet.rs:73-83 | A fragment is stored under its index if that is below the announced number, and changes nothing else. |
| ReceiveQueues.AddKeepsTidy | src/packet.rs:114-141 | After any frame at all, at most the packet it belongs to is complete, it then holds every fragment, and after the sweep nothing complete is left. |
| ReceiveQueues.ReleaseIsMaximal | src/receivedqueue.rs:43-57 | A release hands out consecutive order indices and stops only at one that is not there. |
| ReceiveQueues.ReleaseIsInOrder | src/receivedqueue.rs:20-57 | Over every run of any frames, what has been released carries the order indices 0, 1, 2, ... without gaps, and the next index is not held back. |
| ReceiveQueues.FirstFrameCounts | src/receivedqueue.rs:20-57 | Over every run of whole frames, whoever sent them, the first frame of each order index has been released or is filed, all later ones are ignored, and nothing is kept that has been released. |
| ReceiveQueues.ReleaseKeepsTheRest | src/receivedqueue.rs:43-57 | A release takes exactly the frames it returns out of the queue and leaves all others. |
| ReceiveQueues.UpperEndIsExact | src/receivedqueue.rs:20-42 | Over every run of whole frames, the upper end of the queue is just above the highest order index that arrived. |
| ReceiveQueues.LateFragment | src/packet.rs:114-141 | A fragment for a finished split id completes it again if and only if it claims to be the only fragment; any other is dropped without a trace. |
| ReceiveQueues.ReassemblyIsAtMostOnce | src/packet.rs:114-141 | Over every run, a split id used for two or more fragments is completed at most once, and nothing is kept for it afterwards. |
| ReceivedQueues.SplitPacketQueue.constructor | src/packet.rs:108-113 | A new pool is empty. |
| ReceivedQueues.SplitPacketQueue.Add | src/packet.rs:114-128 | The fragment joins the packet of its split id, which is made on first use. |
| ReceivedQueues.SplitPacketQueue.GetAndClear | src/packet.rs:129-141 | Returns the complete packets, in the order of the hash table, and removes every finished id. |
| ReceivedQueues.ReceivedQueue.constructor | src/receivedqueue.rs:12-19 | A new queue is empty. |
| ReceivedQueues.ReceivedQueue.Add | src/receivedqueue.rs:20-42 | A fragment goes to the pool and a completed packet is filed under its index; a whole frame is filed unless it is late or a duplicate. |
| ReceivedQueues.ReceivedQueue.GetAll | src/receivedqueue.rs:43-57 | Returns and removes the frames that are due. |
| OrderedDelivery.AddFragment | src/receivedqueue.rs:21-31 | One more fragment of an honest sender, however late or often it comes, files its payload exactly when all its fragments have arrived, with the right bytes. |
| OrderedDelivery.FrameArrives | src/session.rs:143-152 | After every frame of an honest sender the receiver again holds exactly the complete payloads it has not released, and has released those up to the first incomplete one. |
| OrderedDelivery.ReleaseIsExact | src/receivedqueue.rs:43-57 | Which payloads have been released is settled by which frames have arrived: those before the first incomplete one. |
| OrderedDelivery.RunMatches | src/receivedqueue.rs:20-57 | The same over every run of frames, in any order and with any repetition. |
| OrderedDelivery.SameFramesSameRelease | src/receivedqueue.rs:20-57 | Two runs in which the same frames arrive release the same payloads. |
| OrderedDelivery.LogGrows | src/session.rs:220-255 | When the sender takes on another payload with a fresh order index and split id, the receiver's state still fits. |
| Sessions.FragmentsFit | src/session.rs:229-242 | No fragment reaches past the end of the payload, so taking it off the buffer cannot fail. |
| Sessions.MessageForCarries | src/session.rs:220-255 | The frames queued for a payload carry its first bytes: all of it if it fits one frame, otherwise the full fragments but the last and `len % max` bytes of that one. |
| Sessions.MessageForIsWellFormed | src/session.rs:220-255 | Those frames share the order index and split id, and number themselves as the receiver expects. |
| Sessions.WholePayloadCarriedIff | src/session.rs:228-254 | The whole payload is carried if and only if it fits one frame, or is shorter than 64 KiB and no multiple of the fragment size. |
| Sessions.MultipleOfFragmentSizeLosesBytes | src/session.rs:230-242 | With an MTU of 1400, a payload of 2678 bytes is cut to its first half. |
| Sessions.OneFragmentIff | src/session.rs:229-234 | A payload is sent as a single fragment if and only if it is too long for one frame and its length, cast to 16 bits, is positive and fits one fragment. |
| Fragmentation.WholeIff | src/session.rs:220-228 | A payload goes out whole if and only if it is shorter than the MTU less 46. |
| Fragmentation.WholeFrameIs | src/session.rs:220-228 | It is then one reliable ordered frame with both indices and the whole payload. |
| Fragmentation.FragmentNumberIs | src/session.rs:229-235 | Any other payload is cut into just as many fragments of the MTU less 61 bytes as its length, cast to 16 bits, needs, and all of them are marked as split. |
| Fragmentation.FragmentIs | src/session.rs:235-251 | Fragment i carries the bytes from i times the fragment size on, as many as fit it, the last only the remainder; its fields are the sender's counters, the number of fragments and i. |
| Fragmentation.SplitIdStaysIff | src/session.rs:220-255 | A split id is used up exactly by the payloads that are split. |
| Fragmentation.SystemFrameIs | src/session.rs:207-219 | A protocol packet goes out as one frame with its bytes, whatever its reliability, and with the indices that the reliability asks for. |
| Handing.HandingIsExact | src/session.rs:143-152 | Of the frames of a datagram, those without an order index are all handed on, in their order; what is handed on besides is what the receiving queue releases, in that order. |
| Handing.HandedAsTheyCome | src/session.rs:123-152 | What has been handed on after some frames of a datagram is not changed by the others, so nothing is held back. |
| LiveSessions.Session.constructor | src/session.rs:52-68 | A new session is empty, and its counters are zero, whatever the MTU; it is fit for use if the MTU is at least 62. |
| LiveSessions.Session.SendTo | src/session.rs:220-255 | Queues the frames for the payload, whole or split, and moves the three counters. |
| LiveSessions.Session.SendFragments | src/session.rs:229-251 | The loop that consumes the payload queues exactly its fragments, in order. |
| LiveSessions.Session.SendSystemPacket | src/session.rs:207-219 | Queues a protocol packet, with a message index if it is reliable and an order index if it is ordered. |
| LiveSessions.Session.FlushQueue | src/session.rs:85-93 | Encodes and sends every set that the queue emits, in order. |
| LiveSessions.Session.FlushAck | src/session.rs:94-110 | Sends one ACK for each range and one NACK for each gap. |
| LiveSessions.Session.HandleAck | src/session.rs:111-116 | Removes every number of the range, or drops the packet if it does not decode. |
| LiveSessions.Session.HandleNack | src/session.rs:117-122 | Renumbers every number of the range, or drops the packet if it does not decode. |
| LiveSessions.Session.ReceivePacket | src/session.rs:143-152 | An unordered frame is passed on at once; any other goes through the receiving queue, and what is due is passed on. |
| LiveSessions.Session.HandleDatagram | src/session.rs:123-129 | Records the number and handles the frames in order, or drops the datagram if it does not decode. |
| LiveSessions.Session.Handle | src/session.rs:170-180 | Routes a packet by the flags of its first byte. |
| LiveSessions.Session.Disconnect | src/session.rs:192-206 | Queues the farewell as an ordered packet, flushes and marks the session as ended. |
| LiveSessions.FarewellIs | src/session.rs:192-199 | The farewell is one reliable ordered frame with the single byte 0x15. |
| Links.FeedbackIsHonest | src/session.rs:94-102 | A report names as received exactly what is stored, as missing only what is not, and no number beyond the highest one seen. |
| Links.StepKeepsInv | src/session.rs:85-255 | No lookup of a step the outside world can offer, in any state that satisfies the invariant, misses, and the step keeps the invariant. |
| Links.ReachableNext | src/session.rs:85-255 | In a reachable state no lookup of any possible step misses, and the next state is reachable. |
| Guarantees.DeliveryIsAPrefix | src/session.rs:143-152 | Over every run, the payloads released are a prefix of those that the calls put on their way, in order. |
| Guarantees.PromisedIsAcceptedIff | src/session.rs:220-255 | A run puts on their way exactly the payloads passed in if and only if none has a length that is cut short. |
| Guarantees.IntactPayloadsArriveInOrder | src/session.rs:220-255 | Without such lengths, what comes out is a prefix of what went in, byte for byte. |
| Guarantees.ReassemblyUndoesFragmentation | src/packet.rs:73-141 | However the frames of a payload and of its predecessors are interleaved, reordered and repeated, exactly one frame comes out under its order index, with the bytes carried; that is the payload exactly for the lengths that are not cut short. |
| Guarantees.RepetitionCompletesAgainIff | src/packet.rs:114-141 | Once the split id of a payload is finished, a repetition of a fragment completes it again if and only if the payload length, cast to 16 bits, is positive and fits one fragment. |
| Guarantees.HonestReassemblyIsAtMostOnce | src/packet.rs:114-141 | Over every run of an honest sender's frames, each split id that was not used for a payload of a single fragment is completed at most once. |
| Guarantees.OneFragmentCompletesTwice | src/packet.rs:114-141 | With an MTU of 1400, the one fragment of a payload of 65537 bytes, arriving twice, completes twice. |
| Guarantees.NothingIsDiscardedEarly | src/packetqueue.rs:62-67 | Over every run, a frame that was handed over is still queued or has been processed by the receiver. |
| Guarantees.QuiescenceIsCompleteIff | src/packetqueue.rs:62-67 | Over every run that ends with an empty sending queue, all payloads sent have been released, if and only if no call passed a payload for which no frame is sent. |
| Guarantees.VanishedPayloadBlocks | src/session.rs:229-253 | Over every run that contains a call with such a payload, no more payloads are released than were sent before it, however the run goes on. |
| Guarantees.SixtyFourKilobytesVanish | src/session.rs:229-253 | A payload of 65536 bytes, under an MTU of 1400, is such a payload. |
| Guarantees.NumbersAreConsecutiveAndFixed | src/packetqueue.rs:54-122 | Over every run the numbers emitted are 0, 1, 2, ... in that order, and each stands for one content. |
| Guarantees.WindowStaysWhole | src/packetqueue.rs:100-122 | Over every run, all feedback on the network is about emitted numbers, everything due for emission is still queued, and no lookup of a possible step misses. |
| Guarantees.FramesAreConserved | src/packetqueue.rs:35-122 | Over every run, each frame is queued or discarded exactly as often as it was handed over, and what was discarded had been emitted and processed. |
| Progress.EmitEverything | src/packetqueue.rs:68-122 | From every reachable state, one late enough emission puts everything outstanding on the network under numbers the receiver has not accounted for. |
| Progress.DeliveryCanComplete | src/session.rs:85-129 | From every reachable state one emission, and then a run in which nothing more is sent or emitted, empties the sending queue. |
| Progress.EverythingSentCanArrive | src/session.rs:85-152 | So everything sent can still arrive, if and only if every payload has frames. |
| Sizes.DatagramsFitTheMtu | src/packetqueue.rs:35-53 | Over every run, encoded datagrams stay 33 bytes below the MTU, 37 with a fragment and 39 with several frames, as long as protocol packets fit on their own. |
| Sizes.SendToFrameSizes | src/session.rs:220-250 | A fragment takes at most the MTU less 41 bytes, a whole payload at most the MTU less 37. |
| Numbering.MessageIndexesAreConsecutive | src/session.rs:207-255 | Over every run, reliable frames carry the message indices 0, 1, 2, ... in the order they were handed over. |
| Numbering.SplitIdsAreConsecutive | src/session.rs:220-255 | Over every run the next split id is the number of payloads that were too long for one frame. |
| Numbering.DatagramsAreMarked | src/packetqueue.rs:40-49 | Over every run, a datagram is marked as carrying a fragment exactly when it does, and a fragment travels alone. |
| Numbering.StepKeepsFields | src/session.rs:207-255 | Every step keeps the indices of all frames handed over below the sender's counters, and their split fields within 16 bits. |
| Wire.Reader.Read | src/reader.rs:26-28 | Reads all the bytes asked for or fails; a read of no bytes succeeds anywhere. |
| Wire.Reader.ReadByte | src/reader.rs:29-31 | Reads one byte. |
| Wire.Reader.ReadShort | src/reader.rs:33-38 | Reads two bytes, high byte first. |
| Wire.Reader.ReadTriad | src/reader.rs:60-65 | Reads three bytes, low byte first. |
| Wire.Reader.ReadInt | src/reader.rs:40-45 | Reads four bytes, high byte first. |
| Wire.Reader.Next | src/reader.rs:120-122 | Moves the cursor on, past the end if need be. |
| Wire.Writer.WriteShort | src/writer.rs:26-31 | Appends two bytes, high byte first. |
| Wire.Writer.WriteTriad | src/writer.rs:38-45 | Appends three bytes, low byte first; the number must fit. |
| Wire.Writer.WriteInt | src/writer.rs:32-37 | Appends four bytes, high byte first. |
| Wire.ReadBack24 | src/reader.rs:60-65 | A number of 24 bits reads back wherever it stands. |
| FrameCodec.EncodedLength | src/packets/frame.rs:45-63 | The length the batching code budgets for a frame is exactly its size on the wire. |
| FrameCodec.FrameReadsBack | src/packets/frame.rs:64-132 | A frame whose uncarried fields are zero and whose data is shorter than 8192 bytes reads back wherever it stands, and leaves the cursor at its end. |
| FrameCodec.DecodedIsCanonical | src/packets/frame.rs:64-106 | Whatever the bytes, a frame that decodes is such a frame, and the cursor has moved on. |
| FrameCodec.FrameRoundTripIff | src/packets/frame.rs:64-132 | A frame survives the wire if and only if it is such a frame. |
| FrameCodec.FrameSetReadsBack | src/packets/frame_set.rs:19-42 | A frame set of such frames reads back. |
| FrameCodec.FrameSetRoundTripIff | src/packets/frame_set.rs:19-42 | And no other frame set does. |
| FrameCodec.DecodedReadsBack | src/packets/frame_set.rs:19-42 | Whatever the bytes, a frame set that decodes encodes and decodes to itself. |
| FrameCodec.FrameSetLength | src/packets/frame_set.rs:33-42 | A frame set takes four bytes and the lengths of its frames. |
| Layouts.EncodedBytes | src/packets/frame.rs:108-132 | An encoded frame, byte by byte: reliability code and split flag, the length in bits cast to 16 bits, the indices it carries, low byte first, a zero byte after an order index, the split fields, high byte first, and the data. |
| Layouts.DecodesIff | src/packets/frame.rs:64-106 | A frame decodes if and only if its header names one of the five reliabilities and nothing that is read of it lies past the end of the buffer; the byte after an order index is not read. |
| Layouts.DecodedBytes | src/packets/frame.rs:64-106 | The fields of a decoded frame are what stands where an encoded frame has them, and its data is the slice of the buffer that ends at the cursor, as long as the length field says. |
| Layouts.FramesStand | src/packets/frame_set.rs:33-42 | Frames are written one directly after the other. |
| Layouts.SetBytes | src/packets/frame_set.rs:33-42 | A frame set is its header, its number, low byte first, and then its frames. |
| Layouts.SetDecodesIff | src/packets/frame_set.rs:19-32 | A datagram decodes to a frame set if and only if it begins with that header and number and those frames decode one after the other until the cursor has reached the end. |
| Layouts.PacketBytes | src/packets/ack.rs:18-48 | The bytes of a packet that reports a range: seven for a single number, ten otherwise. |
| Layouts.RecordDecodesIff | src/packets/ack.rs:49-66 | A record decodes if and only if nothing is missing; any flag but zero stands for a single number, and the count is not looked at. |
| Layouts.RouteIs | src/session.rs:170-180 | Which handler a packet goes to, by the value of its first byte. |
| FrameIO.Length | src/packets/frame.rs:45-63 | Adds up to the size of the encoded frame. |
| FrameIO.Encode | src/packets/frame.rs:108-132 | Appends the encoded frame to the buffer. |
| FrameIO.Decode | src/packets/frame.rs:64-106 | Reads one frame from the cursor, or fails where the format does. |
| FrameIO.DecodeSet | src/packets/frame_set.rs:19-32 | The loop over self-delimiting frames ends, and reads the frame set. |
| FrameIO.EncodeSet | src/packets/frame_set.rs:33-42 | Returns the encoded frame set. |
| AckCodec.WriteRecord | src/packets/ack.rs:40-48 | Appends an encoded record. |
| AckCodec.ReadRecord | src/packets/ack.rs:49-66 | Reads a record, or fails where the format does. |
| AckCodec.Packet | src/packets/mod.rs:113-118 | Returns the id followed by the record for a range. |
| AckCodec.PacketReadsBack | src/packets/ack.rs:18-66 | A range of 24-bit numbers survives the wire. |
| AckCodec.RoutesAreRight | src/session.rs:170-180 | ACKs, NACKs and both kinds of datagram reach the handler for their kind. |
| Endpoints.PacketHandled | src/packets/nack.rs:20-68 | An ACK or NACK packet off the wire is applied to exactly the numbers of its range, and hands nothing on. |
| Endpoints.ReportFits | src/session.rs:94-110 | A report about numbers of 24 bits can be written. |
| Endpoints.DatagramIs | src/session.rs:85-93 | An emission goes out as one datagram for each set, in order. |
| Endpoints.PacketsAre | src/session.rs:94-110 | A report goes out as one packet for each range, in order. |
| AckTransfers.AckTransferIsExact | src/session.rs:94-122 | However the ACK packets of a report are reordered or repeated, together they remove from the peer's queue exactly the sets whose numbers were stored. |
| AckTransfers.NackTransferIsExact | src/session.rs:94-122 | However its NACK packets are reordered or repeated, together they give each missing set that is still queued exactly one fresh number, consecutively, and leave all others alone. |
| Feedbacks.FlushSucceedsIff | src/packetqueue.rs:68-122 | The lookups of an emission succeed if and only if no number due for emission was missing before the batch was closed and the overdue sets were renumbered. |
| Feedbacks.AckIsHarmlessIff | src/packetqueue.rs:62-122 | After an ACK for any range, the next emission succeeds if and only if the range is empty or names no number still waiting to be emitted. |
| Feedbacks.NackIsHarmlessIff | src/packetqueue.rs:100-122 | After a NACK for any range, the next emission succeeds if and only if the range is empty, ends among the emitted numbers, or lies beyond everything queued. |
| Feedbacks.PacketIsHarmlessIff | src/session.rs:111-180 | After a packet of any bytes, the next emission succeeds if and only if the packet is no ACK or NACK, does not decode, or names a harmless range. |
| Feedbacks.EarlyAckStopsFlush | src/packetqueue.rs:62-122 | While the set numbered 0 waits to be emitted, the packet that acknowledges it makes the next emission stop. |
| Feedbacks.OverlongNackStopsFlush | src/packetqueue.rs:100-122 | Once it has been emitted, the packet that reports 0 and 1 as missing does. |
| Worlds.ActIsLinkStep | src/session.rs:85-255 | Whatever one session does with bytes, each direction stays as it is or takes one possible step, and everything on the network is still what the two directions put there. |
| Exchanges.ExchangeIsTwoRuns | src/session.rs:85-255 | At every point of every exchange of bytes, the sessions and the network are as a run of the one direction and a run of the other say. |
| Exchanges.BytesDeliverInOrder | src/session.rs:123-152 | At every point of every exchange of bytes, what either end has released is a prefix of the payloads the other has put on their way, each as far as its frames carry it. |
| Exchanges.BytesArriveWhole | src/session.rs:123-152 | At every point of every exchange of bytes, what has been released of an end that was given no payload of a length that is cut short is a prefix of what it was given. |
| Exchanges.BytesDeliverAllIff | src/session.rs:123-152 | Once one end has nothing left to send, the other has released everything put on its way, if and only if no payload was given for which no frame is sent. |
| Exchanges.BytesNeverBlockAFlush | src/packetqueue.rs:111-122 | At every point of every exchange of bytes, both ends can flush in any order of the hash table, as long as the counters put on the wire are at most 2^24: no lookup misses, and everything emitted can be written. |
| Exchanges.ReportsAlwaysFit | src/session.rs:94-110 | At every point of every exchange of bytes, both ends can report: every number reported fits 24 bits. |
| Exchanges.HandedIsExact | src/session.rs:123-152 | At every point of every exchange of bytes, what either end has handed on is the ordered stream it has released and, besides it, every frame without an order index that came in, in the order in which they came. |
| Exchanges.UnorderedArrive | src/session.rs:123-152 | A frame without an order index that is handed on was queued by the peer, and once the peer has nothing left to send, every one it queued has been handed on. |
| Exchanges.LeftCanComplete | src/session.rs:85-129 | From every point of every exchange of bytes, as long as enough numbers are left, some further exchange, in which the left end is given nothing more, empties its sending queue. |
| Exchanges.RightCanComplete | src/session.rs:85-129 | The same for the right end. |
| Registries.AssignIsBalancedIff | src/server.rs:221-226 | The loads stay right if and only if the address had no worker before. |
| Registries.AssignIs | src/server.rs:221-226 | The address is served by the worker it was assigned to, whose load is one higher; every other address and load stays. |
| Registries.ReleaseIs | src/server.rs:228-232 | The address is served by nobody, and the load of its worker is one lower; every other address and load stays. |
| Registries.ReleaseIsBalanced | src/server.rs:228-232 | The load that is lowered is never zero, and the loads stay right. |
| Registries.EndKeepsAgreementIff | src/server.rs:181-188 | The registry survives the report of an ended connection if and only if it has the connection under that guid, or knows neither the address nor the guid. |
| Registries.OpenKeepsAgreement | src/server.rs:134-167 | A request to open a connection leaves addresses, guids and loads in agreement, whatever it asks for. |
| Registries.OpenedIs | src/server.rs:134-167 | A connection is opened exactly for an address and a guid that are both unknown; it is then registered under both and served by that worker, and nothing else changes. |
| Registries.OpensKeepEven | src/server.rs:134-226 | However many connections are opened, the loads stay as even as they were, or within one of each other. |
| Registries.OpensSpreadEvenly | src/server.rs:134-226 | A server that has only opened connections has all loads within one of each other. |
| Registries.EndUndoesOpen | src/server.rs:134-188 | Ending a connection that was just opened restores the registry. |
| Registries.RegistryAgrees | src/server.rs:134-232 | In every state a server can reach, addresses, guids and worker loads agree, and every waiting report is about a registered connection. |
| Registries.NoEventStops | src/server.rs:181-232 | And no event that can happen lowers a load of zero. |
| Servers.SessionWorker.constructor | src/server.rs:209-219 | A new allocator has the workers asked for, without load. |
| Servers.SessionWorker.Add | src/server.rs:221-226 | Assigns the address to a worker with the least load, and raises that load. |
| Servers.SessionWorker.Delete | src/server.rs:228-232 | Takes the address from its worker, if it has one, and lowers that load. |
| Servers.RakServer.constructor | src/server.rs:60-78 | A new server has no connection. |
| Servers.RakServer.OpenConnectionRequest2 | src/server.rs:101-168 | Passes on the packet of a known address, refuses a guid that is connected, and otherwise opens a connection on a least loaded worker; the registry stays in agreement. |
| Servers.RakServer.ConnectionEnd | src/server.rs:181-188 | Takes the address out of both tables and the first occurrence of the guid out of the list. |

## Left out

- Actors, mailboxes, arbiters and sockets (src/udp.rs): a handler is an atomic step, and what is sent goes to a set or list of datagrams. A failing send, which ends a flush early, is not modelled; losing datagrams is.
- Clocks: a call reads the time once. `update` (src/session.rs:69-81), its 3 s pings and the disconnection after 10 s of silence are not part of the model.
- What happens to a frame once it is handed on (`handle_packet`, src/session.rs:153-168): pings, pongs and the farewell are recognised there, and a frame with empty data stops the program.
- The handshake on both sides, unconnected pings, the client (src/client.rs) and the codecs of those packets, with strings and addresses.
- The server's handling of anything but `OpenConnectionRequest2` and `ConnectionEnd`.
- Duplicates of unordered frames: the receiver does not look at message indices and may handle such a frame more than once, so exactly-once delivery is claimed of ordered frames only.
- Wrap-around: sequence, order and message indices are unbounded in memory; that they must fit 24 bits is a condition on emitting (`SetEncodable`), derived from the counters in `BytesNeverBlockAFlush`. An increment of the 16-bit split id beyond its range stops the program, as it does in a build with overflow checks.
- Fragments held for an open split id (`SplitPacket`) are a value in the pool's map; that the program updates them in place, and the cloning of a complete packet, are not captured.
- Exchanges.BytesDeliverInOrder: is for MTUs from 62 to 8238 and protocol packets below 8192 bytes, because a frame's length in bits is written to 16 bits; `FrameRoundTripIff` gives the exact condition for one frame.
- Exchanges.BytesArriveWhole: has the same bounds, for the same reason.
- Exchanges.BytesDeliverAllIff: has the same bounds, for the same reason.
- Exchanges.BytesNeverBlockAFlush: has the same bounds, for the same reason, and so have `ExchangeIsTwoRuns`, `UnorderedArrive`, `ReportsAlwaysFit`, `LeftCanComplete` and `RightCanComplete`.
- Sizes.DatagramsFitTheMtu: assumes that each protocol packet fits a datagram on its own, because `send_system_packet` does not split.
- Links.StepKeepsInv: is about lookups. That a field which outgrows its width stops the program when it is written is the subject of `BytesNeverBlockAFlush` and `ReportsAlwaysFit`.
- LiveSessions.Session.SendTo: demands an MTU of at least 62, below which the 16-bit subtractions underflow or the division is by zero.
- LiveSessions.Session.Handle: an empty packet stops the program, so the method demands one byte at least.
- LiveSessions.Session.FlushQueue: demands that nothing due for emission has been taken away and that its numbers fit 24 bits, where the program would stop; `BytesNeverBlockAFlush` shows that no peer running this code takes anything away, and `PacketIsHarmlessIff` which packets of any other peer do.
- Registries.RegistryAgrees: a connection that stops without reporting stays registered, as it does in the program.
