# SDSyslog: verified model

SDSyslog sends log messages as encrypted, fragmented UDP packets (the D3P protocol), collects
the fragments in concurrent shards, reassembles them, and hands fragments between processes
over the FIPR session protocol during hot upgrades. This project models those parts in Dafny
and proves what they promise, for all inputs and all runs. `dafny verify dfyconfig.toml` checks
everything.

| part | modules |
|---|---|
| MPMC ring queue with live resize | `MpmcSteps` (atomic steps of any number of producers and consumers), `MpmcCalls` (what a call that returns has done), `MpmcQueue` (the ring and the two-instance container as classes over an abstract FIFO), `Scaling`, `Arith` |
| FIPR session protocol | `FiprFrame` (wire frames and stream reassembly), `FiprSession` (one end as an input/output automaton), `HalfDuplex` (two ends over two in-order channels), `FiprPair` (client and server scripts, all interleavings), `FiprGuards`, `FiprClientLaws` and `FiprServerLaws` (either end against any peer), `FiprClass` and `FiprScripts` (the session object, the calls on it and the two scripts, proved to follow the automaton) |
| D3P codec | `Bytes`, `Options`, `Values` (typed values and text), `ValueLaws` (which floats, texts and times are kept), `WireLayouts` (bytes at their places), `PayloadLaws` (what is accepted and what it becomes), `TrustMarkers`, `InnerPayload` (printer and parser), `ContextFields`, `PayloadCodec`, `Fragmentation`, `Reassembly`, `OuterPayload`, `Wrapper`, `EndToEnd`, `PacketSize`, `Forwarding` |
| Fragment shards | `ShardSteps` (push, watcher, assembler as one machine), `ShardLaws` (when a bucket is stored to, filled and handed on), `ShardAssembly` (what drained buckets reassemble to), `ShardQueue` (the shard as a class), `ShardDelivery` (from the sender's packets to the drained bucket), `Routing`, `Atomics` |
| Replay protection | `ReplayCache` |

How things are represented:

- Concurrency is a state machine whose steps are the source's atomic operations (queue) or its
  critical sections and channel operations (shard); the theorems quantify over every sequence
  of steps. FIPR channels are reliable and in order, as the Unix stream socket is.
- Go strings are byte sequences. Times are integers: nanoseconds for timestamps, seconds in the
  replay cache. Integer truncation to 8, 16, 32 and 64 bits is written out.
- Random choices (message ID, padding lengths and bytes, keys and nonces), hashes, the clock, the
  pinned keys and every cryptographic primitive are parameters. Of encryption only `CipherLaw` is
  used: decryption undoes it and the ciphertext is longer by the suite's overhead. Of the FIPR
  MAC only its length is used.
- A key channel always has room, and a failed write to a FIPR transport does not occur.

Where the code and its own comments or expectations differ, the model follows the code:

- `Defragment` says the maximum sequence was "already asserted as all equal"; the comparison
  never looks at it (`Reassembly.MaximaAreNotCompared`).
- The minimum size of a non-empty context section includes its header and terminator, so one
  small field is received but not sent or forwarded (`Forwarding.ReencodingAccepted`,
  `Forwarding.SmallContextIsNotForwarded`).
- The overhead formula counts the section header and terminator twice, which is what pays for
  up to three placeholder bytes (`PacketSize.PacketSizeBound`).
- Removing trust markers once can form a new one (`TrustMarkers.MarkersCanReappear`; exactly
  when: `TrustMarkers.StripOnceIsEnough`).
- `ConstructPayload` rewrites the fragment it is given, so a failed attempt to forward it leaves
  it without its trust marker (`Forwarding.FailedForwardKeepsHostname`).
- Comparing two fragments that carry a byte-slice field panics (`Reassembly.ByteSlicesPanic`),
  and so does the overhead of a nil field.
- Resizing an empty queue never raises the migration signal (`MpmcQueue.EmptyResizeStalls`;
  exactly when: `MpmcQueue.StallsExactly`). `ScaleCapacity` asks for a smaller queue at a
  utilisation of at most 2 percent, which includes an empty one (`Scaling.ScaleTarget`).
- The limit in `resend` never stops a retransmission, because reading the request for it resets
  the count (`FiprGuards.TooManyResendsOnlyAfterThree`); the three rounds of `awaitAck` bound them.
- A ring of one cell would lose values; the constructor refuses it (`MpmcSteps.CapacityOneOverruns`).
- The missing-key path of `DrainBucket` unlocks its mutex twice; it is never reached
  (`ShardSteps.DrainFindsBucket`).

## Model

| member | source | states |
|---|---|---|
| `MpmcSteps.InvStep` | internal/queue/mpmc/entry.go:135-272 | every load, CAS and store by any thread keeps: each cell is free for a position in the next lap or holds the published value of a claimed one, and no two threads own one position on one side |
| `MpmcSteps.AlwaysHolds` | internal/queue/mpmc/entry.go:135-272 | in every interleaving the shared state agrees with the history of claims and releases |
| `MpmcSteps.BoundedOccupancy` | internal/queue/mpmc/entry.go:135-272 | head <= tail <= head + capacity after any steps |
| `MpmcSteps.ClaimedOnce` | internal/queue/mpmc/entry.go:135-272 | tail positions and head positions are claimed in increasing order, each once, and none is returned twice |
| `MpmcSteps.EveryPositionClaimed` | internal/queue/mpmc/entry.go:135-188 | every position below the tail was claimed by some producer |
| `MpmcSteps.EveryHeadClaimed` | internal/queue/mpmc/entry.go:190-272 | every position below the head was claimed by some consumer |
| `MpmcSteps.PopReturnsPushed` | internal/queue/mpmc/entry.go:135-272 | a pop from position p returns the value of the push that claimed p, after its own claim of p |
| `MpmcSteps.FullMeansOccupied` | internal/queue/mpmc/entry.go:135-188 | a producer sees a cell as behind exactly while the occupant one lap earlier is unreleased, and reports full only after seeing that |
| `MpmcSteps.RefinesFifo` | internal/queue/mpmc/entry.go:135-272 | claims are linearisation points of one bounded FIFO; no other step changes it |
| `MpmcCalls.PushReturns` | internal/queue/mpmc/entry.go:135-188 | in every interleaving a push that returns has, since it began, either claimed exactly one position with its value and is done with that position, or claimed none and reports full; a lost race loses no value |
| `MpmcCalls.PopReturns` | internal/queue/mpmc/entry.go:190-272 | a pop that returns has, since it began, either claimed exactly the position that it returns from, or claimed none and had read its position as not yet published |
| `MpmcSteps.CapacityOneOverruns` | internal/queue/mpmc/entry.go:67-93 | with one cell a second push claims over an unread value, which is why capacities below 2 are refused |
| `MpmcQueue.PopTakesOldest` | internal/queue/mpmc/entry.go:190-272 | pop returns and removes the oldest element, blocks exactly when nothing is ready to it, and the read side flips only once the draining instance is empty |
| `MpmcQueue.StepFifo` | internal/queue/mpmc/entry.go:39-64 | one push, pop or resize: old contents plus accepted equals returned plus new contents |
| `MpmcQueue.FifoAcrossResizes` | internal/queue/mpmc/entry.go:39-272 | over any sequence of operations nothing is lost, duplicated or reordered |
| `MpmcQueue.StalledStep` | internal/queue/mpmc/entry.go:39-64 | one operation leaves consumers on an empty instance without a signal exactly when they were, or when it resizes an empty queue |
| `MpmcQueue.StallsExactly` | internal/queue/mpmc/entry.go:221-234 | in any run the migration is stuck at the end exactly when some resize took effect on an empty queue |
| `MpmcQueue.MigrationCompletes` | internal/queue/mpmc/entry.go:190-272 | otherwise popping the drained instance returns all its elements and the next pop reads from the new one |
| `MpmcQueue.EmptyResizeStalls` | internal/queue/mpmc/entry.go:221-234 | after resizing an empty queue no pop ever returns, whatever is pushed |
| `MpmcQueue.ResizedHoldsExactly` | internal/queue/mpmc/entry.go:39-64 | after an accepted resize to n exactly the first n of any pushes are accepted, behind all old contents, which are still there |
| `MpmcQueue.RingPush` | internal/queue/mpmc/entry.go:135-188 | at rest, the cell at the tail is ready exactly when there is room, and publishing in it appends the value |
| `MpmcQueue.RingPop` | internal/queue/mpmc/entry.go:190-272 | at rest, the cell at the head is published exactly when there is an element, and releasing it removes the first |
| `MpmcQueue.NewQueueInst` | internal/queue/mpmc/entry.go:67-93 | accepts exactly the powers of two from 2 on and gives an empty ring |
| `MpmcQueue.QueueInst.Push` | internal/queue/mpmc/entry.go:135-188 | appends exactly when there is room |
| `MpmcQueue.QueueInst.Pop` | internal/queue/mpmc/entry.go:190-272 | removes and returns the first element, or reports empty |
| `MpmcQueue.Queue.Push` | internal/queue/mpmc/entry.go:135-188 | the container moves as the abstract push |
| `MpmcQueue.Queue.Take` | internal/queue/mpmc/entry.go:190-272 | one round of the consumer loop, raising the migrate token with the last element of a draining instance |
| `MpmcQueue.Queue.Pop` | internal/queue/mpmc/entry.go:190-272 | the consumer loop moves the container as the abstract pop, flip included |
| `MpmcQueue.Queue.MutateSize` | internal/queue/mpmc/entry.go:39-64 | the resize moves the container as the abstract resize and changes no contents |
| `Scaling.NextPowerOfTwo` | internal/queue/mpmc/scaling.go:72-86 | the bit smearing gives the least power of two not below its argument up to 2^62, and wraps to the minimum integer beyond |
| `Scaling.MaskIsSlot` | internal/queue/mpmc/entry.go:67-93 | masking by capacity - 1 is the position modulo capacity, for every power of two |
| `Scaling.PowerTest` | internal/queue/mpmc/entry.go:67-93 | the test c and (c - 1) = 0 holds exactly for powers of two |
| `Scaling.ScaleTarget` | internal/queue/mpmc/scaling.go:11-70 | scales exactly on the stated thresholds, to double or half, always a power of two, within the bounds when they are powers of two; an empty queue between the bounds is always halved |
| `FiprFrame.WireLayout` | pkg/fipr/encoding.go:23-75 | the declared length, sequence, opcode, payload and MAC stand at their places in a wire frame and are read back from there |
| `FiprFrame.NextFrame` | pkg/fipr/framing.go:53-131 | whatever the chunks, readFrame returns the frame at the front of the stream and leaves the rest |
| `FiprFrame.StreamReassembly` | pkg/fipr/framing.go:53-131 | every split of a concatenation of frames is read back as those frames in order; buffer plus unread bytes are always the frames not yet returned |
| `FiprSession.FramedDecodeDoesNotPanic` | pkg/fipr/encoding.go:78-147 | a frame that came through readFrame never slices past its end |
| `FiprSession.DecodeEncoded` | pkg/fipr/encoding.go:23-147 | decoding an encoded frame gives its sequence, opcode and payload, subject exactly to the size limit and the opcode's validation |
| `FiprSession.SendIsBounded` | pkg/fipr/handlers.go:15-209 | the progress of a send against any peer, at every point of its recursion |
| `FiprSession.SendBound` | pkg/fipr/handlers.go:15-209 | one send reads at most nine frames and retransmits at most three times; success means the last transmission was acknowledged or three resend requests were answered |
| `FiprGuards.AcceptedIsAuthentic` | pkg/fipr/encoding.go:78-147 | the converse of DecodeEncoded: an accepted frame is byte for byte the encoding of what it says under the session secret, at the session counter and within the size limits |
| `FiprGuards.ForgedIsRefused` | pkg/fipr/encoding.go:117-125 | an expected frame with any other last sixteen bytes closes the session with the MAC error and leaves the counter |
| `FiprGuards.AcceptsExactly` | pkg/fipr/encoding.go:78-147 | a session accepts exactly the authentic frame at its counter, within the size limit, that fits its phase and the payload rules of its opcode |
| `FiprGuards.RefusedFrames` | pkg/fipr/validation.go:5-59 | of refused authentic frames exactly those with an unfit payload are counted; a late start and an unknown opcode close the session, a rejection leaves it as it was |
| `FiprGuards.ReadsOnlyFrames` | pkg/fipr/framing.go:53-131 | whatever the bytes, only whole frames with a true length field are returned, and exactly their bytes leave the stream |
| `FiprGuards.BadLengthIsReported` | pkg/fipr/framing.go:104-131 | a length field below the minimum is reported however the stream is cut |
| `FiprGuards.RefusedSendShuts` | pkg/fipr/encoding.go:23-45 | a send cannot begin exactly on a closed session or at the last sequence number, and leaves the session closed |
| `FiprGuards.ClosedIsSilent` | pkg/fipr/helpers.go:5-20 | a closed session sends nothing and accepts nothing |
| `FiprGuards.ReadFailsShut` | pkg/fipr/handlers.go:92-173 | a failed read shuts the session exactly unless it is the bad length field met by a script of its own on an open session |
| `FiprGuards.FailureShuts` | pkg/fipr/handlers.go:15-209 | against any peer, every call that fails leaves its session shut, except after that bad length field |
| `FiprGuards.RetransmitsWhatWasWritten` | pkg/fipr/handlers.go:176-209 | against any peer, a retransmission carries the opcode and payload first written under the sequence that an authentic resend request has just asked for |
| `FiprGuards.TooManyResendsOnlyAfterThree` | pkg/fipr/handlers.go:176-186 | the limit in resend is never what stops a retransmission; a call gives up for too many resends only after its own third request |
| `FiprPair.AlongThePath` | pkg/fipr/public.go:8-218 | the matching client and server scripts stay matched through every frame, ack and resend |
| `FiprPair.CountersMatchFramesInFlight` | pkg/fipr/encoding.go:23-147 | in every run the counters differ by the frames in flight, one direction at a time, numbered consecutively from the receiver's counter, far from the limit |
| `FiprPair.NoBadSequence` | pkg/fipr/encoding.go:78-147 | in every run the next frame for an end that has not returned is never rejected for its sequence number, whether or not the other end has returned |
| `FiprPair.EverySessionEnds` | pkg/fipr/handlers.go:15-209 | no run deadlocks and none is longer than 46 moves |
| `FiprPair.EveryRunCompletes` | pkg/fipr/handlers.go:15-209 | every run, from the first frame on, can be continued until both ends have returned |
| `FiprPair.SessionAgreement` | internal/receiver/shard/fiprsend/send.go:48-92 | in every completed session the server has the client's message ID and sender whenever they could be sent; delivery is reported exactly when the server's routing took the client's fragment; local re-routing exactly when the server lacks the message |
| `FiprPair.FragmentOnlyIfKnown` | internal/receiver/shard/fiprsend/send.go:48-92 | a fragment is written only after the server's bucket check found the message |
| `FiprClientLaws.StatusIsRemembered` | pkg/fipr/public.go:90-114 | against any server: a missing status byte and a shut down shard end the client, and it takes the shard as draining exactly when told so |
| `FiprClientLaws.ReroutesExactly` | internal/receiver/shard/fiprsend/send.go:48-92 | against any server: at the message status it re-routes exactly when a draining shard does not have the message, and otherwise goes on to its fragment |
| `FiprClientLaws.ResultsAreEarned` | internal/receiver/shard/fiprsend/send.go:48-92 | against any server: it re-routes at no other stage, and reports delivery only on reading an accepted verdict |
| `FiprServerLaws.AlwaysLawful` | internal/receiver/shard/fiprrecv/receive.go:66-195 | in every run against any client, each stage is reached only with what the earlier stages require |
| `FiprServerLaws.RoutedIsEarned` | internal/receiver/shard/fiprrecv/receive.go:66-195 | against any client: a fragment reaches the local router only from a running server, for a named message under a valid original sender, and is reported routed exactly when the router took it |
| `FiprServerLaws.StopsEarly` | internal/receiver/shard/fiprrecv/receive.go:66-127 | against any client: without a local routing view no message check is awaited, and with no valid sender no shard check |
| `FiprClass.SessionObj.EncodeFrame` | pkg/fipr/encoding.go:23-75 | the encoded frame and the new counter, or the refusal that closes an exhausted session |
| `FiprClass.SessionObj.NextFrame` | pkg/fipr/framing.go:53-102 | the read loop returns what the stream specification says and keeps the remaining bytes |
| `FiprClass.SessionObj.DecodeFrame` | pkg/fipr/encoding.go:78-147 | decoding with its closing and counting side effects |
| `FiprClass.SessionObj.ValidateFrame` | pkg/fipr/validation.go:5-59 | per-opcode validation with its closing side effects |
| `FiprClass.SessionObj.Send` | pkg/fipr/handlers.go:65-89 | a send follows the automaton to its return and reads at most nine frames |
| `FiprClass.SessionObj.AwaitAckOf` | pkg/fipr/handlers.go:15-62 | the ack loop follows the automaton |
| `FiprClass.SessionObj.AwaitFrame` | pkg/fipr/handlers.go:92-173 | the await loop follows the automaton and reads at most three frames |
| `FiprClass.SessionObj.ResendFrame` | pkg/fipr/handlers.go:176-209 | answers a resend request exactly when the frame is known and the limit allows it |
| `FiprScripts.SendStart` | pkg/fipr/public.go:8-25 | leaves the client exactly at the next stage of its script, or halted with the error |
| `FiprScripts.SendShardCheck` | pkg/fipr/public.go:90-114 | takes the client through shard check and status, returning the draining flag |
| `FiprScripts.SendMessageCheck` | pkg/fipr/public.go:145-167 | takes the client through message check and status, returning whether the message exists |
| `FiprScripts.SendFragment` | pkg/fipr/public.go:191-208 | takes the client through the fragment and the verdict |
| `FiprScripts.RouteFragment` | internal/receiver/shard/fiprsend/send.go:48-92 | the client function returns exactly in the halted state of the client script |
| `FiprScripts.HandleConnection` | internal/receiver/shard/fiprrecv/receive.go:66-195 | the server function returns exactly in the halted state of the server script |
| `FiprScripts.AnswerChecks` | internal/receiver/shard/fiprrecv/receive.go:86-127 | the stages of the server script that answer the shard and message checks |
| `FiprScripts.ReceiveFragment` | internal/receiver/shard/fiprrecv/receive.go:129-195 | the last two stages of the server script |
| `Values.ValueRoundTrip` | pkg/protocol/context.go:15-310 | a serialised value of any supported type comes back in canonical form exactly when it is decodable: finite floats, valid UTF-8, slices below 2^32 bytes |
| `Values.AcceptedIsExact` | pkg/protocol/context.go:129-310 | every accepted encoding is the serialisation of the value it decodes to, up to NULs and negative zero; nothing trails |
| `Values.StripNulKeepsUtf8` | pkg/protocol/text.go:26-34 | stripping NULs keeps text valid UTF-8 |
| `Values.CleanStable` | pkg/protocol/text.go:5-23 | cleaning leaves exactly non-empty printable texts within the limit alone, and is idempotent |
| `Values.CleanStringToBytes` | pkg/protocol/text.go:5-23 | the filtering loop computes the cleaned text |
| `Values.CleanBytes` | pkg/protocol/text.go:26-34 | in-place compaction leaves the NUL-free bytes in the prefix |
| `Values.IsPrintableAscii` | pkg/protocol/text.go:37-45 | true exactly for printable ASCII |
| `ValueLaws.FloatsExactly` | pkg/protocol/context.go:129-310 | float patterns are refused exactly if they are infinite or not a number, or of the wrong length; negative zero becomes zero and every other pattern is kept |
| `ValueLaws.TextExactly` | pkg/protocol/context.go:129-310 | a string value is accepted exactly when it is the UTF-8 encoding (section 3 of RFC 3629) of some sequence of Unicode scalar values, and is kept |
| `ValueLaws.MillisecondsAreKept` | pkg/protocol/payload.go:41-42 | less than a millisecond of a timestamp is lost, towards the past, and the milliseconds come back from the wire, also before 1970 |
| `PayloadLaws.CleanKeepsTheFront` | pkg/protocol/text.go:5-23 | cleaning drops unprintable bytes and keeps the first printable ones up to the limit |
| `WireLayouts.ValueBytes` | pkg/protocol/context.go:15-125 | type bytes and big-endian contents of the fixed-size values |
| `WireLayouts.TextAndBlobBytes` | pkg/protocol/context.go:15-125 | strings travel without NULs, byte slices behind a four-byte length |
| `InnerPayload.ParsePrinted` | pkg/protocol/inner.go:14-149 | a printed record parses back to itself exactly when its lengths are in range, its signature fits its registered suite and the payload has the minimum length |
| `InnerPayload.PaddedIsLongEnough` | pkg/protocol/inner.go:180-190 | ten bytes of padding always reach the minimum length |
| `InnerPayload.PrintParsed` | pkg/protocol/inner.go:180-393 | re-printing an accepted payload reproduces it byte for byte |
| `InnerPayload.SectionLength` | pkg/protocol/inner.go:70-120 | a non-empty context section has at least five bytes, so the marker 1 is unambiguous |
| `InnerPayload.ConstructInnerPayload` | pkg/protocol/inner.go:14-149 | the buffer writer computes the printed record or the same error |
| `InnerPayload.ReadFields` | pkg/protocol/inner.go:290-365 | the field loop computes the parsed section |
| `InnerPayload.DeconstructInnerPayload` | pkg/protocol/inner.go:180-393 | the reader computes the parsed record or the same error |
| `WireLayouts.HeaderLayout` | pkg/protocol/inner.go:14-70 | host ID, message ID, sequence, maximum, timestamp, hostname and signature stand at their offsets |
| `ContextFields.OneSortedOrder` | pkg/protocol/payload.go:84-94 | a set of keys has one sorted listing, so the wire order is independent of map iteration |
| `ContextFields.SortKeys` | pkg/protocol/payload.go:84-94 | collecting in any order and sorting gives that listing |
| `ContextFields.FieldArrives` | pkg/protocol/payload.go:96-146 | a sent field with a clean key is received as the value's canonical form, or the placeholder for nothing |
| `ContextFields.AllFieldsArrive` | pkg/protocol/payload.go:79-165 | all fields of a payload are received, each under its own key |
| `ContextFields.BuildFields` | pkg/protocol/payload.go:79-155 | the loop builds the wire fields in key order, stops at the first bad field, and its running length is the section's length |
| `ContextFields.ReadFieldMap` | pkg/protocol/payload.go:254-312 | the loop fills the map, the later of two equal keys winning, or stops at the first bad field |
| `ContextFields.AcceptedFieldsArrive` | pkg/protocol/payload.go:254-312 | accepted fields have clean keys and, without NULs, arrive unchanged when sent again |
| `TrustMarkers.StripPrefixed` | pkg/protocol/payload.go:45-48 | a trust prefix never survives stripping and does not affect the rest |
| `TrustMarkers.StripFixed` | pkg/protocol/payload.go:45-48 | stripping changes nothing exactly when no marker occurs in the hostname |
| `TrustMarkers.MarkerRemains` | pkg/protocol/payload.go:45-48 | a marker is left after stripping exactly when some stretch of the hostname is stripped to that marker |
| `TrustMarkers.StripOnceIsEnough` | pkg/protocol/payload.go:45-48 | stripping twice removes more than stripping once exactly when some stretch of the hostname is stripped to a marker |
| `TrustMarkers.PlainHidesNothing` | pkg/protocol/payload.go:45-48 | which no hostname without an opening bracket contains |
| `TrustMarkers.MarkersCanReappear` | pkg/protocol/payload.go:45-48 | [UNK[UNVERIFIED]NOWN] is stripped to [UNKNOWN] |
| `PayloadCodec.SignedBytesIdentify` | pkg/protocol/payload.go:333-348 | different hostname, host ID or timestamp always give different bytes to sign |
| `WireLayouts.SignedBytesLayout` | pkg/protocol/payload.go:333-348 | the bytes to sign are the ten bytes of context, eight of timestamp, four of host ID, then the hostname |
| `PayloadCodec.ConstructPayload` | pkg/protocol/payload.go:16-181 | the validated record or the first error, and the rewritten hostname of the request |
| `PayloadCodec.DeconstructPayload` | pkg/protocol/payload.go:184-330 | the validated payload or the first error, for any pinned keys; what is accepted and shown is stated by the three PayloadLaws below |
| `PayloadLaws.ConstructAcceptsExactly` | pkg/protocol/payload.go:16-181 | a request is accepted exactly when its IDs are not zero, its sequence is within its maximum, its signature is absent with suite 0 or 64 bytes of suite 1, every field can be sent, a section with fields has 10 to 65535 bytes and the padding 10 to 60 |
| `PayloadLaws.DeconstructAcceptsExactly` | pkg/protocol/payload.go:184-330 | a record is accepted exactly when its header, hostname, data and padding are in range, its sender is unpinned or its signature verifies, and every field can be received |
| `PayloadLaws.DeconstructKeepsValues` | pkg/protocol/payload.go:184-330 | numbers, signature, data and padding are kept, the timestamp as whole milliseconds |
| `PayloadLaws.DeconstructShows` | pkg/protocol/payload.go:229-252 | a pinned sender is shown under its plain hostname, an unpinned one as unverified without a signature and as of unknown origin with one |
| `PayloadCodec.UnmarkedMeansVerified` | pkg/protocol/payload.go:229-252 | a hostname shown without a trust marker has a pinned key that verified this identity's signature |
| `PayloadCodec.PayloadRoundTrip` | pkg/protocol/payload.go:16-330 | a sent payload is received as sent to the millisecond under the hostname the pinned keys allow, or refused exactly when they refuse it |
| `PayloadCodec.SentIsInRange` | pkg/protocol/payload.go:16-181 | what construction accepts, the printer can print and the parser will read |
| `Fragmentation.Fragment` | pkg/protocol/fragmentation.go:12-66 | numbered fragments of the data in order, all but the last as large as their padding allows; fails exactly when a limit is not positive or no such fragmentation exists |
| `Fragmentation.OneFragmentation` | pkg/protocol/fragmentation.go:12-66 | that description determines the fragments uniquely |
| `Fragmentation.EqualTo` | pkg/protocol/fragmentation.go:152-175 | equal, different, or a panic on two byte slices, whichever the map order meets first |
| `Fragmentation.AllFieldsEqual` | pkg/protocol/fragmentation.go:139-149 | the first payload that does not compare as equal decides |
| `Fragmentation.SameMessageCompares` | pkg/protocol/fragmentation.go:152-175 | payloads of one message compare as equal, or panic exactly if they carry a byte slice |
| `Fragmentation.ComparedSame` | pkg/protocol/fragmentation.go:152-175 | decoded payloads that compare as equal agree on all shared fields, maps included |
| `Fragmentation.SortBySeq` | pkg/protocol/fragmentation.go:82-85 | a sorted permutation |
| `Fragmentation.Reassemble` | pkg/protocol/fragmentation.go:87-121 | for each sequence in order its data, or exactly one placeholder |
| `Fragmentation.Defragment` | pkg/protocol/fragmentation.go:69-136 | reassembles a sorted permutation of its input, refuses empty or unequal input, or panics with the comparison |
| `Reassembly.BucketReassembles` | pkg/protocol/fragmentation.go:69-136 | a list with one fragment per sequence gives data and placeholders in sequence, whatever its order, exactly when the shared fields agree and there is one fragment or no byte slice; several with a byte slice panic |
| `Reassembly.PermutationReassembles` | pkg/protocol/fragmentation.go:69-136 | a complete message in any order gives its data back, or panics exactly if it has several fragments with a byte slice |
| `Reassembly.FragmentRoundTrip` | pkg/protocol/fragmentation.go:12-136 | fragmenting and reassembling in any order is the identity on data and shared fields exactly when there is one fragment or no byte-slice field |
| `Reassembly.ByteSlicesPanic` | pkg/protocol/fragmentation.go:159-164 | two fragments with a one-byte slice under the key a make reassembly panic |
| `Reassembly.MaximaAreNotCompared` | pkg/protocol/fragmentation.go:114-116 | fragments with different maxima pass the comparison |
| `OuterPayload.SealRoundTrip` | pkg/protocol/outer.go:12-141 | opening undoes sealing exactly for payloads of the minimum length, and the exact packet length |
| `OuterPayload.ConstructOuterPayload` | pkg/protocol/outer.go:12-84 | suite, key, nonce and ciphertext in a row, or the same error |
| `OuterPayload.DeconstructOuterPayload` | pkg/protocol/outer.go:87-141 | the running index cuts the same parts, or the same error |
| `WireLayouts.PacketLayout` | pkg/protocol/outer.go:46-77 | suite byte, key, nonce and ciphertext stand one after the other in a packet |
| `WireLayouts.RegisteredSuites` | pkg/crypto/registry/encryption.go:25-150 | suites 0 and 1 are registered with their key, nonce and overhead sizes, and no others |
| `Wrapper.CalculateProtocolOverhead` | pkg/protocol/payload.go:351-389 | the declared overhead, independent of map order; a panic on nil or an error on an unsupported value, whichever is met first |
| `Wrapper.Create` | pkg/protocol/wrapper.go:11-76 | one packet per fragment of the signed message; fails exactly when signing, the overhead, the fragmentation or the encoding of some fragment refuses |
| `Wrapper.Extract` | pkg/protocol/wrapper.go:79-123 | opens every packet and defragments, or reports the first failure; no packets give no message |
| `EndToEnd.PacketOpens` | pkg/protocol/wrapper.go:46-106 | a packet opens to the fragment it was built from, under the receiver's verdict |
| `EndToEnd.EndToEndDelivery` | pkg/protocol/wrapper.go:11-123 | Extract on any permutation of Create's packets returns the data, host ID, millisecond timestamp, canonical fields and the hostname as the pinned keys allow, or their refusal; it panics exactly if there are several packets and a byte-slice field |
| `EndToEnd.SignedArrivesUnmarked` | pkg/protocol/payload.go:229-252 | a signed message from a pinned sender whose name contains no marker arrives under its plain hostname |
| `EndToEnd.ShownByTrust` | pkg/protocol/payload.go:229-252 | Extract on any permutation of Create's packets, for a clean unmarked hostname: an unpinned sender arrives as [UNVERIFIED] when unsigned and as [UNKNOWN] when signed; a pinned one is refused when unsigned or when the signature does not verify, and otherwise arrives under its plain hostname |
| `PacketSize.PacketLength` | pkg/protocol/payload.go:351-389 | the exact length of a packet |
| `PacketSize.PacketSizeBound` | pkg/protocol/payload.go:351-389 | every packet has at most maxPayloadSize - 3 + e bytes, e the number of empty inputs; full packets of tidy inputs have exactly that many, so they fit exactly when e <= 3 |
| `PacketSize.FourEmptyInputsOverflow` | pkg/protocol/payload.go:351-389 | with an empty hostname and three empty strings every packet but the last is one byte longer than the limit |
| `PacketSize.SomePacketOverflows` | pkg/protocol/wrapper.go:11-76 | such a message, sender and random choices exist: Create's first packet has 74 bytes at a limit of 73 |
| `Forwarding.ReencodingAccepted` | pkg/protocol/payload.go:16-181 | a validated fragment is encoded again exactly when it has no fields or its section takes at least ten bytes |
| `Forwarding.ForwardingIsTransparent` | internal/receiver/shard/fiprsend/send.go:74-86 | re-encoding a validated fragment and decoding it under the same pinned keys returns every field but the sender's address, for NUL-free strings and a hostname that hides no marker |
| `Forwarding.SmallContextIsNotForwarded` | pkg/protocol/payload.go:157-161 | a fragment whose only field is a small boolean is received but cannot be encoded again |
| `Forwarding.FailedForwardKeepsHostname` | pkg/protocol/payload.go:44-48 | after a failed attempt to forward, the fragment keeps its hostname exactly when the sender was verified under a pinned key and its name contains no marker |
| `Forwarding.FailedForwardSplitsMessage` | internal/receiver/shard/routing.go:128-149 | an unpinned sender's fragment pushed after a failed attempt no longer compares as equal with the rest of its message |
| `ShardSteps.StepKeeps` | internal/receiver/shard/queue.go:26-166 | every push, watcher step, pop and drain keeps: filled buckets are exactly those with one token or a cancelled one, and the bucket count is exact |
| `ShardSteps.AlwaysHolds` | internal/receiver/shard/queue.go:26-166 | that holds in every run |
| `ShardSteps.DrainFindsBucket` | internal/receiver/shard/queue.go:137-147 | the key in the assembler's hand always names a stored, filled bucket, so the mutex is never unlocked twice |
| `ShardSteps.TokenExactlyOnce` | internal/receiver/shard/runtime.go:24-78 | a key is in at most one of queue, pending list and hand; TotalBuckets is the number of stored buckets and every bucket created is stored or was drained |
| `ShardLaws.PushOnTime` | internal/receiver/shard/queue.go:26-111 | a push on an absent or open bucket within the deadline stores its fragment under its sequence, keeps all others, and fills and enqueues the bucket exactly when it then has every sequence |
| `ShardLaws.PushTooLate` | internal/receiver/shard/queue.go:70-92 | a late push stores nothing and hands the bucket on as it is |
| `ShardLaws.PushLeavesOthers` | internal/receiver/shard/queue.go:26-111 | a push touches no other bucket, and changes nothing at a filled bucket or one of another maximum |
| `ShardLaws.MarkLaw` | internal/receiver/shard/runtime.go:39-68 | the watcher fills exactly the buckets whose last fragment is older than the deadline, and stores nothing |
| `ShardLaws.CompleteIsFilled` | internal/receiver/shard/queue.go:98-110 | in every run a bucket with a fragment for each sequence is filled |
| `ShardLaws.FilledEarlyOnlyByTime` | internal/receiver/shard/queue.go:70-92 | in every run a bucket that lacks a sequence becomes filled only by the watcher, which found it too old, or by a late fragment |
| `ShardLaws.QueueIsFifo` | internal/receiver/shard/queue.go:114-166 | keys reach the assembler in the order in which they were enqueued, with the bucket stored under them |
| `ShardAssembly.AlwaysSourced` | internal/receiver/shard/queue.go:94-96 | stored and drained fragments are ones pushed under their key |
| `ShardAssembly.FilledByCount` | internal/receiver/shard/queue.go:99-110 | a bucket holds as many fragments as sequences exactly when it holds one for each |
| `ShardAssembly.DrainedBucketReassembles` | internal/receiver/assembler/worker.go:53-67 | the result depends only on the bucket, not on map order: its data in sequence with placeholders, exactly when its fragments agree and it has one or no byte slice |
| `ShardAssembly.CompleteBucketGivesMessage` | internal/receiver/assembler/worker.go:53-67 | in every run, for any order of arrival and any duplicates, a bucket filled by count gives its message back, or panics exactly if it has several fragments with a byte slice |
| `ShardAssembly.TimedOutBucketGivesGaps` | internal/receiver/assembler/worker.go:53-67 | in every run a drained bucket gives each sequence of its message in order as its data or exactly one placeholder, under the same condition |
| `ShardDelivery.CompleteBucketDelivers` | internal/receiver/processor/worker.go:84-107 | Create's packets, opened and pushed to a shard in any order with any duplicates, give the sent message back from the drained bucket, with the address they came from |
| `ShardQueue.Shard.Push` | internal/receiver/shard/queue.go:26-111 | performs the push step on the fields and keeps the invariant; ShardLaws says what that step stores, fills and enqueues |
| `ShardQueue.Shard.PopKey` | internal/receiver/shard/queue.go:114-134 | performs the pop step, or nothing when cancelled |
| `ShardQueue.Shard.DrainBucket` | internal/receiver/shard/queue.go:137-166 | performs the drain step; a missing key is reported and fatal |
| `ShardQueue.Shard.MarkExpired` | internal/receiver/shard/runtime.go:39-68 | marks exactly the expired unfilled buckets, in any map order |
| `ShardQueue.Shard.SendMarked` | internal/receiver/shard/runtime.go:70-77 | sends the marked keys in order up to a cancellation |
| `ShardQueue.Shard.AssembleOne` | internal/receiver/assembler/worker.go:30-67 | drains the oldest queued bucket and defragments its fragments |
| `ShardQueue.ListFragments` | internal/receiver/assembler/worker.go:53-56 | lists every fragment of the bucket once |
| `Atomics.Counter.Subtract` | internal/atomics/writes.go:11-42 | subtracts from the value held at its compare-and-swap, saturating at zero; fails only if every attempt was interfered with |
| `Routing.RouteSelect` | internal/receiver/shard/routing.go:190-213 | the primary is the candidate at the key's hash modulo their number; the secondary is another one when there are several |
| `Routing.RouteFragment` | internal/receiver/shard/routing.go:20-186 | pushes to a primary that is there and not told to stop; when it was told to stop without the bucket and no remote process takes the fragment, to the secondary, with the fragment as the attempt left it; reports failure exactly when none takes it |
| `Routing.StepKeepsPlaced` | internal/receiver/shard/routing.go:83-172 | every step keeps a bucket with its primary, or with its secondary once the primary is shut down without it |
| `Routing.OneLiveBucket` | internal/receiver/shard/routing.go:83-172 | no message of several fragments ever has live buckets in two shards of the process, however shutdowns and remote answers interleave |
| `Routing.ShutdownLasts` | internal/receiver/assembler/routing.go:83-93 | a shard told to stop stays so in every run |
| `Routing.NoNewMessageAfterShutdown` | internal/receiver/shard/routing.go:83-172 | in every run a shard that was told to stop gets no new message of several fragments, unless it is the secondary and the primary was told to stop or is gone |
| `Routing.SingleFragmentGoesToListed` | internal/receiver/shard/routing.go:33-80 | a message of one fragment goes, unchanged, only to a shard listed as not draining |
| `ReplayCache.AnswersLikePlainMap` | internal/receiver/listener/replayprotection.go:24-80 | with any cleanups and a clock that does not go back, every answer is that of one map that is never cleaned |
| `ReplayCache.ReplayedIffRecentlyAccepted` | internal/receiver/listener/replayprotection.go:36-52 | a key is refused exactly when it was accepted less than ttl seconds ago |
| `ReplayCache.AcceptedUsesAreApart` | internal/receiver/listener/replayprotection.go:36-52 | two accepted uses of a key are at least ttl seconds apart |
| `ReplayCache.Cache.IsReplayed` | internal/receiver/listener/replayprotection.go:36-52 | the answer and the updated shard |
| `ReplayCache.Cache.CleanupShard` | internal/receiver/listener/replayprotection.go:71-80 | leaves in one shard exactly the entries younger than ttl, unchanged, and touches no other shard |
| `ReplayCache.Cache.Cleanup` | internal/receiver/listener/replayprotection.go:55-68 | one tick cleans every shard |

## Left out

- Cryptographic primitives, key storage and random generators: parameters with the laws above.
- Sockets, deadlines, partial writes, UDP, eBPF, inotify, log sources and sinks, metrics, the installer and process lifecycle.
- Wrap-around of the queue's 64-bit positions: positions are unbounded naturals.
- Queue depth and byte counters, and the shard's waiting-bucket and byte counters: the source updates them outside the critical step, so they are not exact.
- Loss-freedom at atomic-step granularity across a resize: a producer paused between the draining check and its claim can write to a drained instance. The container is modelled at operation granularity.
- Liveness of a full key channel: `push` blocks on it while holding the lock that the assembler needs.
- FIPR runs in which the transport corrupts or drops frames: the channels are reliable. `FiprSession.SendBound` holds against any peer.
- Changes of the routing snapshot, the choice of the remote process, and the order of shard IDs after an instance is added.
- Buckets that mix local and forwarded fragments: the comparison includes the sender's address, which forwarding does not carry.
- Trend heuristics, message filters, size estimates, value formatting and log texts: easy or heuristic.
- Scaling.ScaleTarget: compares the fill percentage exactly, without floating-point rounding.
- Scaling.NextPowerOfTwo: the six shift-and-or lines are one loop over the shift width.
- Wrapper.Create: a failing random generator is not modelled.
- Routing.RouteFragment: works on values, so it does not capture aliasing between shards and the routing snapshot.
- PayloadCodec.ConstructPayload: the request is a value; its in-place hostname rewrite is the second result.
- OuterPayload.DeconstructOuterPayload: zeroing of key material after use is not modelled.
- Forwarding.ForwardingIsTransparent: stated for NUL-free strings and hostnames that hide no marker; strings with NULs lose them, and TrustMarkers.StripOnceIsEnough says which hostnames change.
