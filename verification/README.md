# A verified model of the imr MoldUDP64 replay server

`imr` replays a file of length-prefixed TotalView-ITCH messages as a MoldUDP64 multicast stream, keeps a ring
of the file positions of the last messages sent, and answers retransmission requests by reading the file again
from a position the ring remembers. This project models that system in Dafny and proves what its parts promise
each other and what they promise to receivers.

Three descriptions of the server are related to each other.

* **The replay as mathematics** (`Replay`): `Run(env, n)` is the downstream feed after `n` loop iterations, on
  arbitrary file bytes. `WholeRun` says what it sends and records on every well-formed file; `Skipping` compares
  that with filtering single messages; `AnyFile` accounts for every byte of any file, and `Progress` says when the
  loop ends on it.
* **The objects** (`Bytes`, `Framing`, `PacketBuilder`, `RetransmissionBuffer`, `DownstreamFeed`,
  `Retransmission`, `Heartbeat`, `Pacer`): classes and loops shaped like the C++ ones, with the header buffer,
  the receive buffer and the ring as arrays updated in place. Their contracts tie every new state to the
  mathematics: `DownstreamFeed.Feed.Replay` computes `Run`, `Retransmission.Feed.HandleRequest` computes
  `Respond`.
* **The threads** (`Session`, `TornReads`): every schedule of the downstream thread, the heartbeat thread and
  any number of ring readers, one shared access per step. `Session.ExecuteRefines` shows that the downstream
  thread, however interleaved, does what `Run` says, so every fact about `Run` holds of every schedule; `Liveness`
  bounds the steps after which schedules get there.

The main results: a replay of any well-formed file sends exactly the messages its packet starts select, each once
and in order, and numbers and records them accordingly (`WholeRun.RunCourse`, `WholeRun.WholeRunExact`), in the
fewest packets where nothing is skipped once it has started (`Skipping.FewestPackets`); a retransmission reply
carries the messages downstream numbered if and only if downstream skipped none of those the reply spans
(`Agreement.ReplyAgrees`), in every schedule that reads ring entries whole
(`SessionTheorems.ConcurrentReplyAgrees`) and, read field by field, for the number whose position was last in the
slot (`SessionTheorems.TornReplyAgrees`); the ring with its mask, its wrapping 64-bit test and its stale-entry
check is a sliding-window map (`RetransmissionBuffer.RingExactness`); a client closes a gap that is still in the
window (`Agreement.GapRecovered`); whether the loop ends can be read off any file's bytes
(`Progress.HaltsUnlessWalkJams`); on any bytes the file falls into what was sent, skipped and dropped
(`AnyFile.EveryByteAccounted`); what a lookup returns is determined exactly by how far the writer had come at each
of its steps, in every schedule (`SessionTheorems.ConcurrentLookupExact`, `TornReads.LookupExact`); the whole output
has the shape a receiver expects (`SessionTheorems.TraceShape`), with heartbeats that are at most one heartbeat out of
date (`Announcements.HeartbeatsFresh`); and every fair schedule of a session nobody stops sends everything and
announces its end, while a stop is heeded within one iteration (`Liveness.UnstoppedSessionEnds`,
`Liveness.StopHeeded`).

## Reading the statements

* `Env` fixes a session: the file, the session name, MTU, skip threshold and ring size. Its `beyond` field is
  the five bytes that follow the mapping in memory: `peek_timestamp` asks for eight bytes but the timestamp it
  reads ends at the thirteenth, so near the end of a malformed file it reads past the span. Every theorem holds
  whatever those bytes are.
* `WellFormed` files are concatenations of complete messages, each long enough to hold its timestamp (13 bytes
  with the prefix) and small enough for one packet. Timestamps are in any order unless a statement says otherwise.
* `Chosen` lists the indices of the messages a replay sends, `Recorded` their positions and `Selected` the
  messages: number t belongs to `Selected[t - 1]`. `Skipping.InTimeOrder` shows that for files in time order, and
  whenever nothing is to be skipped, these are the messages not below the threshold and the file's messages from
  the first of them on.
* `SkipsOnlyAhead` files are those of which nothing is skipped once the first packet has started.
* `stop_requested()` is a parameter: the number of loop tests before it first answers true
  (`DownstreamFeed.Feed.Replay`), or its answer at each step (`Session`).
* The host is little-endian. File size and ring size together stay below 2^64; that 64-bit numbers then never
  wrap is proved, not assumed.
* Debug-build `assert`s are not part of the model: `try_add` accepts any message that fits.

## Where the code does not do what one might expect

* Lookup of number 0 answers position 0 until the ring first fills (`RetransmissionBuffer.NumberZero`).
* A number whose sum with the ring size wraps 64 bits is refused even if it is in the window; the ring is exact
  if and only if the writer stays that far below 2^64 (`RetransmissionBuffer.RingExactness`).
* Read field by field, an entry can be torn between its two reads: the answer is right if and only if the
  position of `s + size` had not been written by then (`TornReads.RightUnlessLapped`, `TornReads.TornAnswer`), and
  the reply then carries the messages of another number (`SessionTheorems.TornReplyAgrees`).
* The skip threshold is a message filter if and only if no packet hides an excluded message behind a kept one
  (`Skipping.PacketSkipIsFilter`); a two-message file breaks it (`Skipping.HiddenMessage`).
* Replies read the file contiguously, so a message downstream skipped goes out under the number of another; a
  reply is right if and only if it spans no skipped message (`Agreement.ReplyAgrees`), and a four-message file
  breaks it (`Agreement.SkippedInReply`).
* An unskipped message larger than the MTU allows is retried for ever, and each retry sends a packet without
  messages, which a receiver takes for a heartbeat (`Progress.JamIsForever`, `Progress.JamSendsEmptyPackets`,
  `Reception.EmptyReceivedAsHeartbeat`); a one-message file shows it (`Progress.OversizedMessage`).
* The 16-bit count can reach the end-of-session marker if and only if the MTU is at least 131090
  (`PacketBuilder.CountStaysClear`); a reply then loses its messages if it holds 65535
  (`Reception.ReplyReceived`), so a client must not ask for that many at once.
* A request longer than 20 bytes is cut to its first 20 and answered (`Retransmission.Feed.HandleRequest`).

## Model

| member | source | states |
|---|---|---|
| Bytes.HostReadIsBigEndian | src/util/binary_io.h:20-40 | a byteswapped little-endian load is the positional big-endian value of the bytes, for any width |
| Bytes.HostImageIsBigEndian | src/util/binary_io.h:89-94 | storing a byteswapped value lays out its big-endian digits |
| Bytes.DigitsDenote | src/util/binary_io.h:83-106 | every value of the width survives being written and read |
| Bytes.DigitsUnique | src/util/binary_io.h:83-106 | no other byte string denotes the same value |
| Bytes.Write | src/util/binary_io.h:56-61 | replaces exactly the bytes at the position and advances past them |
| Bytes.WriteAtBe | src/util/binary_io.h:101-106 | leaves the value's big-endian digits in the field and every other byte untouched |
| Bytes.ReadBe | src/util/binary_io.h:83-88 | reads the positional value and advances past it |
| Bytes.WriteThenRead | src/util/binary_io.h:83-106 | write then read is the identity on any buffer content |
| Timestamp.ExtractIsBigEndian | src/itch/timestamp.cpp:11-25 | copy, byteswap and shift give the big-endian value of the six bytes, below 2^48 |
| Framing.GetAndCheckLengthPrefix | src/mold/io.cpp:12-37 | success exactly when prefix and body are in the file; where the position ends in each of the three outcomes |
| Framing.ReadMessage | src/mold/io.cpp:41-53 | an empty result exactly on failure, which leaves the position two bytes on or in place; otherwise prefix and body |
| Framing.SkipMessage | src/mold/io.cpp:55-58 | moves exactly as a read does, on failure too |
| Framing.WalkVisitsBoundaries | src/mold/io.cpp:12-58 | any mix of reads and skips from any boundary stops at each following boundary in turn, and reads return the messages there |
| Framing.FramingIsPartition | src/mold/io.cpp:12-58 | a full walk over any framed file fails nowhere and ends at the end of the file |
| Framing.FramingIsUnique | src/mold/io.cpp:12-58 | the bytes of a framed file determine its messages |
| Framing.CompleteIsFrame | src/mold/io.cpp:41-53 | whatever is read successfully has a truthful prefix |
| Bits.PowerOfTwoTest | src/mold/retransmission_buffer.cpp:10-12 | size & (size - 1) == 0 exactly for powers of two |
| Bits.MaskIsModulo | src/mold/retransmission_buffer.cpp:63-67 | masking with 2^k - 1 is reduction modulo 2^k for every number |
| RetransmissionBuffer.IndexIsModulo | src/mold/retransmission_buffer.cpp:63-67 | both forms of the index give the same ring, for every size and number |
| RetransmissionBuffer.RetransmissionBuffer.constructor | src/mold/retransmission_buffer.cpp:10-29 | a ring of the given size in which nothing has been pushed |
| RetransmissionBuffer.RetransmissionBuffer.IndexOf | src/mold/retransmission_buffer.cpp:63-67 | the number modulo the size, whichever form is used |
| RetransmissionBuffer.RetransmissionBuffer.Push | src/mold/retransmission_buffer.cpp:31-36 | one slot overwritten and its number published, nothing else changed |
| RetransmissionBuffer.RetransmissionBuffer.FilePositionFor | src/mold/retransmission_buffer.cpp:38-61 | agrees with the lookup whose meaning the window theorems give, changing nothing |
| RetransmissionBuffer.WindowSlot | src/mold/retransmission_buffer.cpp:31-36 | after any pushes, each of the last `size` numbers is in its slot with its position |
| RetransmissionBuffer.RingRefinesWindow | src/mold/retransmission_buffer.cpp:31-61 | lookup of every number from 1 to 2^64 - 1 answers like a sliding-window map, even where the 64-bit sum wraps |
| RetransmissionBuffer.RingExactness | src/mold/retransmission_buffer.cpp:31-61 | the map is matched on all numbers if and only if last number plus size stays below 2^64 |
| RetransmissionBuffer.NumberZero | src/mold/retransmission_buffer.cpp:38-61 | number 0 is answered, with position 0, exactly while 1 to size - 1 numbers have been pushed |
| RetransmissionBuffer.ReadHonest | src/mold/retransmission_buffer.cpp:52-60 | an entry read whole never pairs a number with another number's position |
| RetransmissionBuffer.ReadExact | src/mold/retransmission_buffer.cpp:52-60 | read whole, the entry of a pushed number is found if and only if the number that shares its slot has not been written |
| TornReads.LookupSafety | src/mold/retransmission_buffer.cpp:31-61 | over every field-by-field interleaving: an answered lookup found its number not yet overwritten, which position the answer is, and why a lookup stays unanswered |
| TornReads.RightUnlessLapped | src/mold/retransmission_buffer.cpp:52-60 | an answer is the position pushed for s if and only if the position of s + size was not yet written |
| TornReads.LookupExact | src/mold/retransmission_buffer.cpp:38-61 | whatever happens around its three steps, a lookup is answered if and only if its number was published at the first and not yet overwritten at the second, with the position last written at the third |
| TornReads.FieldsMakeEntries | src/mold/retransmission_buffer.cpp:31-36 | written field by field, the ring is that of the whole pushes published, but for the fields already written of the next |
| TornReads.WriterGoesOn | src/mold/retransmission_buffer.cpp:31-36 | from wherever any schedule has brought it, the writer can complete and publish the entry it is at |
| TornReads.TornAnswer | src/mold/retransmission_buffer.cpp:52-60 | a schedule in which a lookup of 1 returns the position of 2 |
| PacketBuilder.Conservation | src/mold/packet_builder.cpp:38-64 | over any call sequence, bytes left plus bytes held equal MTU - 20, and only offered messages are held |
| PacketBuilder.ReservationHolds | src/mold/packet_builder.cpp:30-51 | with messages of at least the minimum size the iovec list never outgrows its reservation |
| PacketBuilder.CountStaysClear | src/mold/packet_builder.cpp:66-69 | the count stays below the end-of-session marker on all call sequences if and only if MTU < 131090 |
| PacketBuilder.PacketBuilder.constructor | src/mold/packet_builder.cpp:13-36 | session in the header, no messages, the whole budget left |
| PacketBuilder.PacketBuilder.TryAdd | src/mold/packet_builder.cpp:38-51 | accepts exactly nonempty messages that fit, and otherwise changes nothing |
| PacketBuilder.PacketBuilder.Reset | src/mold/packet_builder.cpp:59-64 | rewrites only the number field and empties the block |
| PacketBuilder.PacketBuilder.Finalize | src/mold/packet_builder.cpp:53-57 | the gathered bytes are the encoded packet and never exceed the MTU |
| Wire.RoundTrip | src/mold/packet_builder.cpp:33-64 | decoding an encoded packet gives its session, number and the messages its count announces |
| Wire.BlockRoundTrip | tests/e2e/tests/e2e.cpp:22-55 | reading as many messages as the count says gives all of them back if and only if there are fewer than 65536 |
| Wire.RoundTripExact | tests/e2e/tests/e2e.cpp:22-72 | a receiver that tests for the end of the session first gets all messages back if and only if there are fewer than 65535 |
| Wire.EncodeInjective | src/mold/packet_builder.cpp:53-57 | packets that leave as the same bytes are the same |
| Wire.ControlRoundTrip | src/mold/downstream/feed.cpp:161-168 | header-only datagrams decode to their session, number and special count |
| Packing.RunEndIsLargest | src/mold/packet_builder.cpp:38-51 | a run of messages fits if and only if it ends no later than greedy acceptance does |
| Packing.BlocksCover | src/mold/downstream/feed.cpp:101-130 | the greedy blocks are nonempty, stay within the cap and make up the messages |
| Packing.GreedyIsOptimal | src/mold/downstream/feed.cpp:101-130 | no order-preserving split within the cap uses fewer blocks |
| Replay.HaltedStays | src/mold/downstream/feed.cpp:65-92 | once the loop is left its state is final |
| Replay.NumbersAreConsecutive | src/mold/downstream/feed.cpp:101-130 | on any file, numbers start at 1 and each packet's number is the previous one plus the previous count |
| DownstreamFeed.PeekTimestamp | src/mold/downstream/feed.cpp:21-31 | nothing below eight bytes, else the timestamp at offset 7 of the message |
| DownstreamFeed.Feed.constructor | src/mold/downstream/feed.cpp:36-52 | the feed at the start of the file, number 1 next, nothing pushed or sent |
| DownstreamFeed.Feed.Record | src/mold/downstream/feed.cpp:124-128 | the next number pushed with the message's position, and taken |
| DownstreamFeed.Feed.Offer | src/mold/downstream/feed.cpp:117-128 | a message that fits is added, numbered and pushed; one that does not is rolled back |
| DownstreamFeed.Feed.TakeMessage | src/mold/downstream/feed.cpp:105-129 | one message taken, or the packet complete: rolled back if full, not if the read failed |
| DownstreamFeed.Feed.Fill | src/mold/downstream/feed.cpp:105-129 | the loop ends with the packet, pushes and position the packing of the rest of the file gives |
| DownstreamFeed.Feed.BuildPacket | src/mold/downstream/feed.cpp:101-130 | messages, pushes and final position are those of packing from the old position; the header carries the first number |
| DownstreamFeed.Feed.SendPacket | src/mold/downstream/feed.cpp:132-154 | the counter stored and one datagram sent, the encoded packet with all its messages |
| DownstreamFeed.Feed.Emit | src/mold/downstream/feed.cpp:85-91 | one packet built, recorded and sent, as the replay does it |
| DownstreamFeed.Feed.Advance | src/mold/downstream/feed.cpp:65-92 | one loop iteration is one step of the replay |
| DownstreamFeed.Feed.Replay | src/mold/downstream/feed.cpp:63-96 | stopped after any number of tests, the feed and its ring are those of the replay, each datagram on the wire is a packet of it, and below an MTU of 131090 decodes to its number and messages |
| DownstreamFeed.Feed.EndOfSession | src/mold/downstream/feed.cpp:156-168 | the end-of-session datagram carries, and decodes to, session, next number and marker |
| WholeRun.PackAtBoundary | src/mold/downstream/feed.cpp:101-130 | packing from a message boundary takes the longest run that fits and stops at a boundary |
| WholeRun.RunCourse | src/mold/downstream/feed.cpp:65-130 | after any number of iterations on any well-formed file: where the loop stands, that what was sent and pushed and what remains make up the whole, and exactly when it has ended |
| WholeRun.WholeRunExact | src/mold/downstream/feed.cpp:65-130 | a stopped run has sent a prefix of the selected messages, each once and in order, and a finished run all of them; the closing number is one more than the total |
| WholeRun.ChosenAt | src/mold/downstream/feed.cpp:101-130 | the message and the position that belong to each number |
| WholeRun.PacketCarries | src/mold/downstream/feed.cpp:101-130 | each packet carries the messages numbered from its header on |
| WholeRun.PacketsNonempty | src/mold/downstream/feed.cpp:101-130 | over any well-formed file no packet is empty or exceeds the MTU |
| WholeRun.RunHalts | src/mold/downstream/feed.cpp:65-92 | one iteration per message and one more always end the loop over a well-formed file |
| Skipping.PacketSkipIsFilter | src/mold/downstream/feed.cpp:65-92 | a finished replay has sent the messages not below the threshold if and only if no packet hides an excluded message |
| Skipping.HiddenMessage | src/mold/downstream/feed.cpp:65-92 | a two-message file whose finished replay has sent the excluded message |
| Skipping.SendsSuffix | src/mold/downstream/feed.cpp:65-92 | a replay sends all messages from the first unskipped one on if and only if nothing is skipped once the first packet has started |
| Skipping.WholeRunBytes | src/mold/downstream/feed.cpp:65-130 | on such files the bytes sent are the file's from the first unskipped message to the current position |
| Skipping.FewestPackets | src/mold/downstream/feed.cpp:101-130 | on such files a finished run uses no more packets than any order-preserving split of what it sends |
| Skipping.KeptIsSuffix | include/imr/mold/downstream/pacer.h:67-72 | if everything behind the first kept message is kept, the replay sends exactly the kept messages, a suffix of the file |
| Skipping.InTimeOrder | include/imr/mold/downstream/pacer.h:67-72 | so it is for files in time order and whenever nothing is below the threshold |
| Progress.FreeIteration | src/mold/downstream/feed.cpp:65-130 | on any bytes, an iteration that stays in the loop and is not jammed advances the position |
| Progress.JamIsForever | src/mold/downstream/feed.cpp:117-122 | a jammed loop never moves again: position, numbers and pushes stay fixed and it never ends |
| Progress.JamSendsEmptyPackets | src/mold/downstream/feed.cpp:117-122 | each jammed iteration sends one packet without messages |
| Progress.NoJamHalts | src/mold/downstream/feed.cpp:65-92 | without a jam the loop is over within file size + 1 iterations |
| Progress.HaltsUnlessJammed | src/mold/downstream/feed.cpp:65-130 | on any bytes the loop ends if and only if it never jams |
| Progress.HaltsUnlessWalkJams | src/mold/downstream/feed.cpp:65-130 | on any bytes the loop ends if and only if a walk over the file meets no unskipped oversized message where a packet starts |
| Progress.FrameWalkDecides | src/mold/downstream/feed.cpp:65-130 | a walk that forgets about packets decides the same unless a body that overruns the file carries a timestamp to skip |
| Progress.OversizedMessage | src/mold/downstream/feed.cpp:117-122 | a one-message file that is retried for ever, with an empty packet each time |
| AnyFile.PackIsGreedy | src/mold/downstream/feed.cpp:101-130 | on any bytes a packet carries consecutive whole messages of the file, the next does not fit or is not there, and where the position ends |
| AnyFile.CollectIsGreedy | src/mold/retransmission/feed.cpp:143-164 | on any bytes a reply carries consecutive whole messages of the file, as many as were asked for, are there and fit |
| AnyFile.NumbersAnyFile | src/mold/downstream/feed.cpp:101-130 | on any bytes number t is pushed with the position at which message t of those sent was read; these do not overlap |
| AnyFile.ReplyAnyFile | src/mold/retransmission/feed.cpp:114-164 | on any bytes a reply to a request for t begins with the message downstream sent under t |
| AnyFile.EveryByteAccounted | src/mold/downstream/feed.cpp:65-130 | on any bytes the file up to the position falls into messages sent, messages skipped for their timestamp and prefixes whose body overruns the file |
| AnyFile.NothingLeftBehind | src/mold/downstream/feed.cpp:65-83 | a loop that has ended has fewer than eight bytes before it, or has just dropped a prefix it was to skip |
| Retransmission.Feed.constructor | src/mold/retransmission/feed.cpp:18-38 | a responder sharing the ring, with its own builder and buffer |
| Retransmission.Feed.ParseRequest | src/mold/retransmission/feed.cpp:114-141 | nothing for another session, else exactly the ring's answer for the number in the request, with the fields of the request |
| Retransmission.Feed.TakeMessage | src/mold/retransmission/feed.cpp:149-163 | one more message of the reply, or the reply complete |
| Retransmission.Feed.BuildPacket | src/mold/retransmission/feed.cpp:143-164 | the reply holds what can be collected from the position, labelled with the first number asked for |
| Retransmission.Feed.Answer | src/mold/retransmission/feed.cpp:103-112 | exactly the encoded reply to what is in the receive buffer, if there is one |
| Retransmission.Feed.HandleRequest | src/mold/retransmission/feed.cpp:79-112 | in terms of the datagram's own bytes: no reply to one shorter than 20 bytes, of another session or for a number the ring refuses, else exactly the encoded reply; the ring is not touched |
| Agreement.CollectAtBoundary | src/mold/retransmission/feed.cpp:143-164 | a reply from a boundary is the longest run within count and packet |
| Agreement.LongestIsLargest | src/mold/retransmission/feed.cpp:149-163 | the reply's length is the largest that was asked for, exists and fits |
| Agreement.SpanAgrees | src/mold/retransmission/feed.cpp:149-163 | consecutive messages of the file are those numbered from there if and only if downstream skips none of them |
| Agreement.RunPushesPositions | src/mold/downstream/feed.cpp:124-128 | the positions ever pushed are those of the selected messages in order |
| Agreement.ReplyAgrees | src/mold/retransmission/feed.cpp:114-164 | in every reachable ring, an answered request (t, count) gets the messages of the file from that of t on; they are those numbered t, t + 1, and so on if and only if none of them was skipped, and as many as possible where nothing is skipped once downstream has started |
| Agreement.SkippedInReply | src/mold/retransmission/feed.cpp:149-163 | a four-message file where a reply sends a skipped message under another's number |
| Agreement.ResponseToBytes | src/mold/retransmission/feed.cpp:114-141 | the server's response to a request's bytes is labelled with the number asked for and read from its position |
| Agreement.HeardCollects | src/mold/retransmission/feed.cpp:143-164 | the client decodes exactly the messages of that reply |
| Agreement.ExchangeExists | src/mold/retransmission/feed.cpp:79-112 | whatever is pushed meanwhile, every sequence of requests is met with some exchange |
| Agreement.ExchangeBrings | src/mold/retransmission/feed.cpp:114-164 | each request for a gap in the window gains at least one message, and the right ones if and only if none it spans was skipped |
| Agreement.GapRecovered | src/mold/retransmission/feed.cpp:114-164 | as many requests as messages are missing bring exactly the missing messages if and only if none spans a skipped message, so always where nothing is skipped inside the gap; the writer may push meanwhile |
| Session.ReadingRefines | src/mold/downstream/feed.cpp:105-129 | reading a message, accepting it or ending the packet keeps the draft on course for the replay's packet |
| Session.TopRefines | src/mold/downstream/feed.cpp:65-85 | stopping, halting, skipping and starting a packet each agree with the replay |
| Session.SendingRefines | src/mold/downstream/feed.cpp:132-154 | sending completes one iteration of the replay |
| Session.ExecuteRefines | src/mold/downstream/feed.cpp:54-154 | in every schedule of all threads the downstream thread's state is that of the sequential replay |
| Session.LogIsPrefix | src/mold/retransmission_buffer.cpp:31-36 | at any moment the ring has been written with a prefix of what the replay writes |
| Session.CounterBound | src/mold/downstream/feed.cpp:138-138 | the heartbeat counter is at most one past the published number |
| SessionTheorems.TraceShape | src/mold/downstream/feed.cpp:63-96 | data and heartbeats, then only end-of-session packets with the final counter; heartbeats never go back |
| SessionTheorems.TraceData | src/mold/downstream/feed.cpp:132-154 | the data packets of any schedule are those of the replay |
| SessionTheorems.AnnouncedAreEnds | src/mold/downstream/heartbeat.cpp:62-66 | every announced number is 1 or the end of a packet sent or being sent |
| SessionTheorems.AnnouncedAnswerable | src/mold/downstream/heartbeat.cpp:62-66 | between pushes every number below an announced one and in the window is found, with its position |
| SessionTheorems.ConcurrentLookupSafety | src/mold/retransmission_buffer.cpp:31-61 | in every schedule with whole entries, a lookup yields nothing or the position pushed for its number |
| SessionTheorems.ConcurrentLookupExact | src/mold/retransmission_buffer.cpp:38-61 | with whole entries, whatever happens around its two steps, a lookup yields the position pushed for its number if that was published at the first and not overwritten at the second, and nothing otherwise |
| SessionTheorems.ConcurrentReplyAgrees | src/mold/retransmission/feed.cpp:114-164 | in every schedule with whole entries, replies started from answers given agree with downstream |
| SessionTheorems.TornReplyAgrees | src/mold/retransmission_buffer.cpp:38-61 | over every field-by-field interleaving, a reply agrees with downstream from the number whose position was last in the slot, which is the one asked for if and only if it was not yet overwritten |
| SessionTheorems.EndNumber | src/mold/downstream/feed.cpp:156-168 | the end-of-session number is the final counter |
| SessionTheorems.SessionExact | src/mold/downstream/feed.cpp:63-96 | any schedule has sent a prefix of the selected messages, and closes with one more than their number |
| SessionTheorems.UnstoppedSession | src/mold/downstream/feed.cpp:63-96 | a session nobody stops has sent every selected message when it announces its end |
| Liveness.LoopGoesOn | src/mold/downstream/feed.cpp:65-92 | in every schedule, four steps of the downstream thread per iteration and two per byte of the file complete any number of iterations, unless the loop is left |
| Liveness.LoopEnds | src/mold/downstream/feed.cpp:65-92 | in every schedule with enough of its steps, an unstopped downstream thread has left the loop if and only if the walk over the file meets no jam |
| Liveness.EveryIterationReached | src/mold/downstream/feed.cpp:65-92 | every state of the replay that is still in the loop is reached by an unstopped schedule |
| Liveness.StopHeeded | src/mold/downstream/feed.cpp:65-65 | after a stop request at most the iteration under way is completed, and the loop is left |
| Liveness.HeartbeatStops | src/mold/downstream/heartbeat.cpp:46-56 | three steps of the heartbeat thread end it once the loop is left, whatever comes in between |
| Liveness.HeartbeatsGoOn | src/mold/downstream/heartbeat.cpp:30-44 | until then every third step of the heartbeat thread sends a heartbeat |
| Liveness.SessionEnds | src/mold/downstream/feed.cpp:92-96 | on any file whose loop ends, every schedule with enough steps of each thread announces the end of the session, again with every further step |
| Liveness.EndReached | src/mold/downstream/feed.cpp:63-96 | wherever the replay ends there is a session that announces it |
| Liveness.UnstoppedSessionEnds | src/mold/downstream/feed.cpp:63-96 | over a well-formed file such a schedule has sent every selected message and closes with one more than their number |
| Announcements.HeartbeatsFresh | src/mold/downstream/heartbeat.cpp:62-66 | in every schedule a heartbeat announces at least everything that had gone out before the one that precedes it |
| Heartbeat.Heartbeat.constructor | src/mold/downstream/heartbeat.cpp:11-28 | session and heartbeat count in place |
| Heartbeat.Heartbeat.Send | src/mold/downstream/heartbeat.cpp:62-77 | a datagram that decodes to session, counter and no messages, and keeps the rest of the packet |
| Reception.PacketsWellFormed | src/mold/downstream/feed.cpp:101-130 | on any file every packet holds only frames and fits the MTU |
| Reception.ReceiverDecodes | tests/e2e/tests/e2e.cpp:22-55 | below an MTU of 131090 a receiver gets back exactly the number and messages of every packet |
| Reception.WireUnderstood | tests/e2e/tests/e2e.cpp:22-55 | so it does for every datagram of a wire that carries a replay's packets |
| Reception.ReceivedAsData | tests/e2e/tests/e2e.cpp:64-72 | over any well-formed file no data packet is taken for a heartbeat or the end of the session |
| Reception.ReplyReceived | src/mold/retransmission/feed.cpp:114-164 | only requests of this session are replied to, under the number asked for; a client gets back exactly a reply's messages if and only if it holds fewer than 65535, as it does below an MTU of 131090 or if fewer were asked for |
| Reception.EmptyReceivedAsHeartbeat | tests/e2e/tests/e2e.cpp:64-67 | a packet without messages is taken for a heartbeat |
| Pacer.Pacer.constructor | include/imr/mold/downstream/pacer.h:61-65 | no origin yet |
| Pacer.Pacer.GetDelay | include/imr/mold/downstream/pacer.h:78-121 | the origins are set once, and sleeping the delay ends at the later of now and the due time, which lies behind the origin by the whole part of the offset divided by the speed |
| Pacer.Pace | src/mold/downstream/feed.cpp:85-91 | over a run, packet k is released at the later of its clock reading and the time its offset from the first packet takes at the playback speed |
| Pacer.DueScales | include/imr/mold/downstream/pacer.h:101-111 | a due time d behind the origin is right if and only if d times the speed is at most the offset and d + 1 times the speed exceeds it, likewise for earlier timestamps |
| Pacer.LatenessStep | include/imr/mold/downstream/pacer.h:101-121 | lateness carries over less the schedule's slack, and is never negative |
| Pacer.NoDrift | include/imr/mold/downstream/pacer.h:101-121 | lateness does not grow over a gap of at least the per-packet overhead |
| Pacer.WorstDominates | include/imr/mold/downstream/pacer.h:101-121 | the bound is at least the backlog of every suffix of the run |
| Pacer.PacingDoesNotDrift | include/imr/mold/downstream/pacer.h:101-121 | over any run lateness stays within the worst suffix backlog |
| Pacer.ScheduleMonotone | include/imr/mold/downstream/pacer.h:101-111 | later timestamps are due no earlier at any speed, and the first is due when the origin is set |

## Left out

- Sockets, multicast options, epoll, eventfd and the results of system calls: a send appends to a trace and a request is a byte sequence.
- Memory mapping, file descriptors, logging and server wiring: the file is an immutable byte sequence, and the only ordering kept from the wiring is that the heartbeat is joined before the session is ended.
- Weak memory ordering and data-race semantics of C++: schedules are sequentially consistent, with the granularity of each step stated (`Session` reads and writes ring entries whole, `TornReads` field by field).
- IEEE rounding in the pacer: playback speed and quotient are reals, truncated toward zero.
- Real sleep durations and how many end-of-session packets are sent: decided by the clock.
- Constructor exceptions: the conditions they check (MTU at least 20, session of ten bytes, nonzero ring and message sizes) are preconditions.
- Market phases: phase_to_ns and the phase constants that turn a configured phase into the skip threshold; the threshold is a parameter.
- Big-endian hosts.
- SessionTheorems.ConcurrentReplyAgrees: reads and writes ring entries whole, because field by field the statement is false; `SessionTheorems.TornReplyAgrees` states what holds then.
- SessionTheorems.ConcurrentLookupSafety: the same, with `TornReads.LookupSafety` for the field-by-field form.
