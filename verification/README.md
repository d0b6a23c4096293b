# Camera streaming: transport, JSON, fan-out and configuration

A Dafny model of four parts of a camera streaming system, with proofs of what they guarantee together.

**Chunked frames over lossy UDP.** The provider cuts every local read into chunks of at most 1084 bytes (1100 minus a
16-byte header; the source comments that say 1184 and ~444 chunks are out of date, the model uses 1084 and 3871) and
numbers them from one counter shared by all connections. The cloud consumer puts frames together again from whatever
arrives, hands the very buffer it assembled to a bounded queue that drops its oldest items, and a thread sends the queue
to the players' sockets. `Packets`, `Reassembly`, `Transport` (safety over every run), `WrapAround` (what happens outside
of its range), `Completeness`, `Numbering` and `Lifetimes` (what becomes of one connection, and when a frame comes
through), `DispatchQueue`, `SocketStream` with `SocketSending`, `SocketOvertaking` and `DispatchRuns` (the order in which a
player gets its bytes, and who is cut off), `BufferOwnership` with `BufferTraffic`, and over all of it `EndToEnd` and
`FrameToPlayer`.

**JSON.** The parser of `cJSON.c` with its offset and its steps back, the two passes over a string literal, the printer
with its growing buffer and the offset it leaves behind, number printing and reading on IEEE doubles, infinities and NaN included, minification in
place, comparison, and the doubly linked child lists. The specification: `JsonGrammar` is the grammar of RFC 8259 with the
value of each text, `JsonLanguage` the slightly wider one outside of which nothing is accepted; `JsonStrings`,
`JsonNumbers`, `JsonParser` and `Json.Render` are what the code computes; `JsonReading`, `JsonRoundTrip` and `JsonCompact`
relate the two, and `JsonFormat` says how a print is set out. `Powers`, `Doubles` and `NumberFormat` are rounding to doubles and
`"%1.15g"`/`"%1.17g"`. `JsonParseBuffer`, `JsonPrinter`, `JsonMinify`, `JsonCompare` and `JsonList` hold the imperative code
that refines all this.

**Ring-buffer fan-out.** `FanOutRing` is the 4 MiB ring with its cache of the first 2 KiB and what one drain does to one
client; `AndroidFanOut` and `CloudFanOut` are the two consumers, which differ in where a client starts and in what happens
to one that lags.

**Two small protocols.** `ConfigPayload` reads configuration payloads, and `ConfigReload` is the hand-shake between the MQTT
thread that applies them and the SRT thread that rebuilds its session; `EdgeBinding` reads a STUN Binding Success response (RFC 5389).

Concurrent parts are step machines whose steps are the critical sections of the code; theorems about runs hold for every
interleaving. Sends, receives, delays and failures are chosen by the environment: as events, or as scripts of answers.
A JSON text is a Dafny `string` in which each character stands for one byte.

What turned out not to hold as one might read it, with the exact condition:

- A frame is handed over if and only if its chunks drew consecutive sequence numbers (`CompleteIffConsecutive`), and they
  are consecutive if and only if nobody else on the service drew a number between its first and its last chunk
  (`ConsecutiveIffAlone`, and `FrameComesThroughIff` for whole runs). `GappedRun` is a run of five steps in which another
  connection does.
- The receiver's window takes a chunk of another read exactly if its distance from the frame's first chunk, modulo 2^32, is
  below the frame's number of chunks (`ForeignChunkTakenExactlyIf`). So reassembly is safe while distances stay between the
  number of chunks minus 2^32 and 2^32 (`ReassemblySafety`); `UnsafeRun` is a run outside of that in which two honest
  frames are mixed.
- The dispatch queue releases its mutex before it shuts down the sockets of dropped frames, and on some errors the sending
  thread stops in the middle of a frame without shutting the socket down. What players accept is in order if and only if
  that thread never hands a live socket bytes behind others that were dropped or cut short for it (`InOrderIffNoOvertaking`);
  not taking items of sockets that wait for their shutdown, and not stopping on a live socket, is enough
  (`CleanTakesSuffice`). `OvertakingRun` is a run of 67 events that gets a player's bytes out of order.
- The parser reads a JSON text as its value if and only if it is nested within the limit, has no unpaired surrogate and no
  number of more than 63 characters, every number is a double, and no string holds a NUL (`ReadAsMeantIff`).
- A print reads back as the value printed if and only if all its numbers are finite: infinities and NaN are printed as null
  (`PrintParseRoundTrip`, `RecoveredIff`).
- `cJSON_Compare` finds a tree equal to its copy if and only if no object in it gives a name two values that differ, and no
  number is NaN (`EqualsItsCopyIff`); `SameMeansEqual` gives the exact meaning on all trees.
- A client of the cloud fan-out that has read from the ring has a prefix of the stream if and only if exactly 2048 bytes had
  been received when it attached (`PrefixExactlyIf`). Attached later, it misses bytes (`LateClientHasGap`); attached earlier,
  or reset by a new provider session, it gets bytes twice (`EarlyClientHasDuplicate`). `ReachGap` and `ReachDuplicate` reach
  both.
- The viewer's fan-out joins cache and ring without gap. What a viewer is sent stays in order through a drain if and only if
  the drain takes no byte out of the ring from more than the ring's size behind (`StaysInOrderIff`); a viewer that has not
  had the cache replayed when more than cache and ring have been received can only get there (`AttachedTooLate`), and
  `ReachOverrun` reaches that.
- `cJSON_Minify` runs past the terminator exactly of the texts that end inside a string or a block comment (`Minify`); of a
  JSON text with comments it takes white space and comments only and keeps the meaning (`MinifiedIsRead`).
- A `\u` escape with a character that is no hexadecimal digit is not refused: it counts as the code unit zero
  (`BadDigitsReadAsZero`).
- A client of either fan-out is dropped if and only if its response header was refused or its socket was found gone before
  it was up to date; in the cloud also if it lagged. A socket that would block is no reason (`DrainOutcome`).

## Model

| member | source | states |
|---|---|---|
| `Packets.PacketRoundTrip` | src/provider-srt/_legacy_libjuice_provider_configurable.c:652-662 | the header the provider writes is read back by the consumer field for field, and the payload unchanged |
| `Packets.WireLayout` | src/provider-srt/_legacy_libjuice_provider_configurable.c:652-662 | connection, number, size and offset stand in this order at the front of a datagram, most significant byte first, and the payload behind them |
| `Packets.Service.ForwardRead` | src/provider-srt/_legacy_libjuice_provider_configurable.c:641-708 | one local read is cut into exactly the chunks of that frame, in order; the first takes the counter as it is, and each next number is one more than the last plus what others drew in between |
| `Packets.ConsecutiveIffUndisturbed` | src/provider-srt/_legacy_libjuice_provider_configurable.c:649-650 | its numbers are consecutive if and only if nobody draws between its chunks |
| `Packets.CutChunk` | src/provider-srt/_legacy_libjuice_provider_configurable.c:648-662 | the chunk at an offset is the right slice, 1084 bytes or the rest |
| `Packets.PayloadsCoverFrame` | src/provider-srt/_legacy_libjuice_provider_configurable.c:646-697 | the first k chunks' payloads, in order, are the frame up to where chunk k begins |
| `Packets.PayloadsAreFrame` | src/provider-srt/_legacy_libjuice_provider_configurable.c:646-697 | all of them are the frame: nothing lost, nothing twice |
| `Packets.ChunkBounds` | src/consumer-srt-cloud/_legacy_libjuice_consumer_api.c:57-77 | every chunk index of a 4 MiB frame fits the receiver's bitmap, and offset and index determine each other |
| `Reassembly.Connection.BeginFrame` | src/consumer-srt-cloud/_legacy_libjuice_consumer_api.c:1002-1008 | the first chunk resets bitmap, counter and window for its own frame |
| `Reassembly.Connection.StorePayload` | src/consumer-srt-cloud/_legacy_libjuice_consumer_api.c:1045-1047 | an accepted chunk is copied to its offset, marked and counted, and nothing else of the buffer changes |
| `Reassembly.Connection.FinishFrame` | src/consumer-srt-cloud/_legacy_libjuice_consumer_api.c:1049-1069 | the complete frame leaves in the buffer it was assembled in and the spare takes its place; without spare or socket it is forgotten |
| `Reassembly.Connection.AddChunk` | src/consumer-srt-cloud/_legacy_libjuice_consumer_api.c:1012-1070 | window and bounds checks refine the pure step, including every rejection |
| `Reassembly.Connection.OnChunk` | src/consumer-srt-cloud/_legacy_libjuice_consumer_api.c:985-1070 | the callback on one connection refines the pure step `Receive` in place |
| `Reassembly.Connection.Cleanup` | src/consumer-srt-cloud/_legacy_libjuice_consumer_api.c:600-629 | a frame that made no progress for more than 30 seconds is forgotten, with buffers, spare, socket and bitmap as they were; a fresher one, or none in progress, is left as it is, field by field |
| `Reassembly.Connection.constructor` | src/consumer-srt-cloud/_legacy_libjuice_consumer_api.c:559-584 | a new connection has two buffers of its own and no frame in progress |
| `Reassembly.FindConnectionById` | src/consumer-srt-cloud/_legacy_libjuice_consumer_api.c:550-557 | the first slot with the connection id, or none has it |
| `Reassembly.GatheredBound` | src/consumer-srt-cloud/_legacy_libjuice_consumer_api.c:1046-1049 | the byte counter reaches the frame's size exactly when every bit of the bitmap is set |
| `Reassembly.FirstChunk` | src/consumer-srt-cloud/_legacy_libjuice_consumer_api.c:994-1049 | a first chunk opens its frame whatever state the connection was in; a one-chunk frame is handed over at once |
| `Reassembly.LaterChunk` | src/consumer-srt-cloud/_legacy_libjuice_consumer_api.c:1022-1069 | a later chunk is stored once, a duplicate changes nothing, and the last missing one hands over exactly the frame |
| `Reassembly.StoredExactlyIf` | src/consumer-srt-cloud/_legacy_libjuice_consumer_api.c:994-1045 | in any state, any later chunk is stored exactly if it is in the window of a frame in progress, agrees on its size, lies within it and has not come before; all others change nothing, nor does a first chunk of an impossible size |
| `Transport.WindowIdentifiesFrame` | src/consumer-srt-cloud/_legacy_libjuice_consumer_api.c:1017-1026 | a chunk of the connection that passes the mod-2^32 window was cut from the very read that opened the frame, over the whole range of distances in which that is so |
| `Transport.ForeignChunkTakenExactlyIf` | src/consumer-srt-cloud/_legacy_libjuice_consumer_api.c:1022-1026 | in every state the window takes a chunk of another read exactly if its distance modulo 2^32 is below the number of chunks |
| `Transport.StepKeepsInv` | src/consumer-srt-cloud/_legacy_libjuice_consumer_api.c:954-1072 | sending, delivering in any order and number, losing, timing out, opening, closing and replenishing all keep the invariant |
| `Transport.ReassemblySafety` | src/consumer-srt-cloud/_legacy_libjuice_consumer_api.c:985-1070 | in every state of every run each frame handed to dispatch is byte for byte one the sender cut for that connection |
| `Completeness.ReassemblyComplete` | src/consumer-srt-cloud/_legacy_libjuice_consumer_api.c:994-1070 | first chunk first, the rest in any order and number, stale chunks in between: exactly that frame, exactly once |
| `Completeness.GapNeverCompletes` | src/consumer-srt-cloud/_legacy_libjuice_consumer_api.c:1022-1026 | a frame whose numbers have a gap is never handed over, however often its chunks arrive |
| `Completeness.CompleteIffConsecutive` | src/provider-srt/_legacy_libjuice_provider_configurable.c:646-662 | with all chunks delivered, a frame comes through if and only if its numbers are consecutive |
| `Numbering.ConsecutiveIffAlone` | src/provider-srt/_legacy_libjuice_provider_configurable.c:646-662 | in every state of every run a read that was sent has consecutive numbers if and only if no other read drew one between its first and its last |
| `Numbering.GappedRun` | src/provider-srt/_legacy_libjuice_provider_configurable.c:649-650 | a run in which a read ends with a gap: another connection sends between its two chunks |
| `Completeness.ChunksOfTheLog` | src/consumer-srt-cloud/_legacy_libjuice_consumer_api.c:1017-1026 | every near datagram of the connection is either a chunk of the frame in progress or stale |
| `Completeness.TimedOutWaits` | src/consumer-srt-cloud/_legacy_libjuice_consumer_api.c:614-626 | after the reset of a stuck frame no sequence of later chunks stores or hands over anything |
| `Lifetimes.ConnectionIsAlone` | src/consumer-srt-cloud/_legacy_libjuice_consumer_api.c:954-1088 | over any stretch of any run in which it stays open, a connection ends in the state, and has handed over the frames, that its own datagrams, resets and spares lead to, whatever the others do |
| `Lifetimes.ClosedIsSilent` | src/consumer-srt-cloud/_legacy_libjuice_consumer_api.c:586-598 | after a connection was closed nothing is handed over for it until it is opened again |
| `Lifetimes.SlotEvents` | src/consumer-srt-cloud/_legacy_libjuice_consumer_api.c:559-598 | opening gives the slot its state, closing takes it away, a new spare makes a connection with a socket ready and changes nothing else; other slots stay |
| `Lifetimes.StuckWaits` | src/consumer-srt-cloud/_legacy_libjuice_consumer_api.c:614-626 | in every run a reset connection keeps its buffer and hands nothing over until a first chunk comes |
| `Lifetimes.LogIsReads` | src/provider-srt/_legacy_libjuice_provider_configurable.c:641-662 | the reads known to a run are those its threads made, in order, and the counter has moved by one for each chunk sent |
| `Lifetimes.DrawsNext` | src/provider-srt/_legacy_libjuice_provider_configurable.c:649-650 | a chunk draws the next number of the shared counter, and no other read changes |
| `Lifetimes.DeliveredWasRead` | src/consumer-srt-cloud/_legacy_libjuice_consumer_api.c:985-1070 | a frame handed over was read, byte for byte, for that connection earlier in the run |
| `Lifetimes.FrameComesThroughIff` | src/consumer-srt-cloud/_legacy_libjuice_consumer_api.c:994-1070 | in every run a read whose chunks are all delivered, the first one first, to a connection with a spare and a socket, among any later chunks of other reads, is handed over exactly once if its numbers are in the window of the first and otherwise never; they are exactly if no other read drew a number in between |
| `WrapAround.WrapMixesFrames` | src/consumer-srt-cloud/_legacy_libjuice_consumer_api.c:1017-1026 | a late chunk 2^32 numbers old completes a frame that is neither of the two that were sent |
| `WrapAround.UnsafeRun` | src/consumer-srt-cloud/_legacy_libjuice_consumer_api.c:985-1070 | a possible run, from the start, at whose end such a frame has been handed over |
| `DispatchQueue.DropsIsLeast` | src/consumer-srt-cloud/_legacy_libjuice_consumer_api.c:753-768 | the drop loop removes the shortest run of oldest items that makes the new one fit |
| `DispatchQueue.CapsHold` | src/consumer-srt-cloud/_legacy_libjuice_consumer_api.c:753-774 | after any enqueue of a frame at most 63 items and 64 MB are queued, the new frame last |
| `DispatchQueue.Queue.MakeRoom` | src/consumer-srt-cloud/_legacy_libjuice_consumer_api.c:755-768 | the loop drops exactly that run, the byte total stays exact, and the safety break is never reached |
| `DispatchQueue.Queue.RemoveHead` | src/consumer-srt-cloud/_legacy_libjuice_consumer_api.c:842-844 | the oldest item leaves and the saturating subtraction never saturates |
| `DispatchQueue.Queue.Enqueue` | src/consumer-srt-cloud/_legacy_libjuice_consumer_api.c:751-788 | the ring refines the FIFO sequence; what was offered is what was dropped, taken and is queued |
| `DispatchQueue.Queue.Take` | src/consumer-srt-cloud/_legacy_libjuice_consumer_api.c:834-845 | the sending thread gets the oldest item, or the queue is empty |
| `SocketStream.StepKeepsInv` | src/consumer-srt-cloud/_legacy_libjuice_consumer_api.c:751-931 | every step keeps where each accepted byte stands in what was enqueued for its socket, which sockets wait for their shutdown, and what is still to be sent |
| `SocketStream.StreamIntegrity` | src/consumer-srt-cloud/_legacy_libjuice_consumer_api.c:847-931 | at every moment of every run without overtaking, the bytes a socket accepted are a prefix of the frames enqueued for it, all of them when nothing is left to do |
| `SocketStream.InOrderIffNoOvertaking` | src/consumer-srt-cloud/_legacy_libjuice_consumer_api.c:788-928 | in every run all sockets have accepted their bytes in order up to a moment if and only if no send so far has overtaken a frame that was dropped, or cut short on a live socket |
| `SocketStream.CleanTakesSuffice` | src/consumer-srt-cloud/_legacy_libjuice_consumer_api.c:834-928 | if the sender takes no item of a socket that waits for its shutdown and stops on no live socket, no send can overtake |
| `DispatchRuns.EnqueueIsTheQueues` | src/consumer-srt-cloud/_legacy_libjuice_consumer_api.c:753-774 | an enqueue of the step machine leaves and drops what the queue leaves and drops |
| `DispatchRuns.FirstInFirstOut` | src/consumer-srt-cloud/_legacy_libjuice_consumer_api.c:753-845 | in every run what was offered is what was dropped, taken or drained, in order, and then what waits |
| `DispatchRuns.StreamIsOffered` | src/consumer-srt-cloud/_legacy_libjuice_consumer_api.c:721-774 | a socket's stream is what was offered for it since it connected |
| `DispatchRuns.DeadIffKilled` | src/consumer-srt-cloud/_legacy_libjuice_consumer_api.c:803-812 | a socket is dead exactly if it failed, timed out or was shut down for a dropped frame of its own, and cut off exactly if the thread stopped short in a frame for it |
| `DispatchRuns.DroppedAreShut` | src/consumer-srt-cloud/_legacy_libjuice_consumer_api.c:803-812 | once the callback is through with what it dropped, and in any case before it enqueues again, the socket of every frame ever dropped is dead |
| `DispatchRuns.StoppedSendsNothing` | src/consumer-srt-cloud/_legacy_libjuice_consumer_api.c:832-840 | after the thread has stopped no socket accepts anything |
| `DispatchRuns.AcceptsOnlyItsOwn` | src/consumer-srt-cloud/_legacy_libjuice_consumer_api.c:887-928 | only the socket of the frame in hand accepts bytes, and they are that frame from where it was left off |
| `SocketOvertaking.OvertakingRun` | src/consumer-srt-cloud/_legacy_libjuice_consumer_api.c:753-814 | a run from the start in which a send between unlock and shutdown gives a player bytes that are not a prefix |
| `SocketSending.Turn` | src/consumer-srt-cloud/_legacy_libjuice_consumer_api.c:887-928 | one turn of the send loop is a stretch of the step machine, for every answer of send and poll: what it gives the socket is what the events give it |
| `SocketSending.SendItem` | src/consumer-srt-cloud/_legacy_libjuice_consumer_api.c:887-931 | the send loop is a run of events; a part of the item from its start has been sent, all of it exactly if it completed, and a frame cut short leaves its socket dead or cut off |
| `BufferOwnership.StepKeepsInv` | src/consumer-srt-cloud/_legacy_libjuice_consumer_api.c:559-598 | through create, swap, replenish, enqueue, drop, send and close every live buffer keeps exactly one owner |
| `BufferOwnership.SingleOwnership` | src/consumer-srt-cloud/_legacy_libjuice_consumer_api.c:1045-1097 | in every run no buffer is leaked, freed twice or touched after it was freed, although addresses come back |
| `BufferOwnership.HandedOffUntouched` | src/consumer-srt-cloud/_legacy_libjuice_consumer_api.c:1058-1065 | no step writes a frame that has been handed off |
| `BufferOwnership.FrameBytesStable` | src/consumer-srt-cloud/_legacy_libjuice_consumer_api.c:929-942 | a handed-off frame keeps its bytes until it is freed, over any stretch of a run |
| `BufferTraffic.TouchedIsLive` | src/consumer-srt-cloud/_legacy_libjuice_consumer_api.c:559-598 | in every run whatever an event frees, reads or writes is live, and the live buffers are those allocated and not freed since |
| `BufferTraffic.MisuseIsRecorded` | src/consumer-srt-cloud/_legacy_libjuice_consumer_api.c:559-598 | the misuse flag is set exactly by touching a buffer that is not live or freeing one twice |
| `BufferTraffic.BytesChangeOnlyByStoring` | src/consumer-srt-cloud/_legacy_libjuice_consumer_api.c:1045-1047 | bytes change only by storing a chunk into a reassembly buffer and its mark into the bitmap |
| `BufferTraffic.HandedOffOnlyBySwap` | src/consumer-srt-cloud/_legacy_libjuice_consumer_api.c:1058-1065 | a buffer is handed off only by the swap out of the slot it was assembled in, and the spare takes its place |
| `BufferTraffic.SwappedFrameStays` | src/consumer-srt-cloud/_legacy_libjuice_consumer_api.c:1058-1097 | from its swap to its free a frame holds the bytes that were assembled |
| `BufferTraffic.FirstInFirstOut` | src/consumer-srt-cloud/_legacy_libjuice_consumer_api.c:753-845 | buffers leave the queue in the order they were put in |
| `EndToEnd.HandedOverIsEnqueued` | src/consumer-srt-cloud/_legacy_libjuice_consumer_api.c:1090-1093 | every frame reassembly hands over can be enqueued for a known socket |
| `EndToEnd.GivenIsOffered` | src/consumer-srt-cloud/_legacy_libjuice_consumer_api.c:1090-1093 | in every state of every run the frames given to the sockets are those the transport handed over with a dup() that worked, all of them in order, and a socket's stream is the concatenation of those of its connection |
| `EndToEnd.LinkIsARun` | src/consumer-srt-cloud/_legacy_libjuice_consumer_api.c:954-1098 | the transport's part of a run is a run of the transport |
| `EndToEnd.DispatchIsARun` | src/consumer-srt-cloud/_legacy_libjuice_consumer_api.c:721-942 | the dispatch thread's part is a run of the dispatch machine, with an enqueue for each frame handed over |
| `EndToEnd.PlayerSeesSentFrames` | src/consumer-srt-cloud/_legacy_libjuice_consumer_api.c:954-1098 | without overtaking, what a player's socket accepts is a prefix of the frames the transport handed over for its connection, each of which the camera side read for that connection earlier in the run |
| `FrameToPlayer.FrameReachesPlayer` | src/consumer-srt-cloud/_legacy_libjuice_consumer_api.c:822-1098 | from every reachable state in which a player is served and the thread waits, any next read can be cut, delivered, queued and sent, and the player has then accepted exactly that read more, and nobody else anything |
| `JsonStrings.UnescapeSizing` | src/ap2p/cJSON.c:664-755 | for every input, bad escapes included, the writing pass never writes more than the sizing pass counted |
| `JsonStrings.WritingFits` | src/ap2p/cJSON.c:699-755 | it holds from any point of the two passes, even when they are a character out of step |
| `JsonRoundTrip.EscapeRoundTrip` | src/ap2p/cJSON.c:841-899 | escaping and unescaping are inverse, wherever the escaped text stands in front of its closing quote |
| `JsonStrings.Utf8RoundTrip` | src/ap2p/cJSON.c:596-640 | the bytes written for a code point are UTF-8 in its shortest form (section 4 of RFC 3629) and decode to it |
| `JsonStrings.Utf8IsUnique` | src/ap2p/cJSON.c:596-640 | every UTF-8 sequence is what is written for the code point it decodes to |
| `JsonStrings.HexValueMeans` | src/ap2p/cJSON.c:500-516 | a character has the value v exactly if it is the hexadecimal digit at place v, of either case |
| `JsonStrings.DigitsInOrder` | src/ap2p/cJSON.c:500-516 | the sixteen digits in their order, lower case and upper case |
| `JsonStrings.ShortAgrees` | src/ap2p/cJSON.c:714-737 | the two-character escapes stand for what section 7 of RFC 8259 says, and no others are taken |
| `JsonStrings.WordReads` | src/ap2p/cJSON.c:493-526 | four digits, upper case, lower case or mixed, are read as the code unit they are the digits of |
| `JsonStrings.BadDigitsReadAsZero` | src/ap2p/cJSON.c:513-516 | with a character that is no digit the code unit is zero |
| `JsonStrings.SurrogatesJoin` | src/ap2p/cJSON.c:585-586 | a surrogate pair gives back its code point (section 2.2 of RFC 2781) |
| `JsonStrings.EscapeDecodes` | src/ap2p/cJSON.c:530-648 | every spelling of the escape of a code point below 2^16, its digits in any case, is written as its UTF-8 encoding |
| `JsonStrings.PairEscapeDecodes` | src/ap2p/cJSON.c:556-640 | and every spelling of the surrogate pair of a code point above |
| `JsonGrammar.WordIsMeant` | src/ap2p/cJSON.c:493-526 | the code unit the grammar gives four digits is that of section 7 of RFC 8259 |
| `Doubles.RoundIsNearest` | src/ap2p/cJSON.c:263-292 | the double strtod gives is nearest: no double is closer to the text's value |
| `Doubles.RoundIsDouble` | src/ap2p/cJSON.c:263-292 | what is rounded below 2^1024 is a double; beyond it strtod gives an infinity |
| `Doubles.CloseRounds` | src/ap2p/cJSON.c:449-457 | what is off from a double by at most one part in 2 * 10^16 is rounded to it |
| `Doubles.HalfwayGoesToEven` | src/ap2p/cJSON.c:263-292 | half-way between two doubles the one with the even last bit is taken |
| `Doubles.OverflowIff` | src/ap2p/cJSON.c:263-292 | exactly what is rounded to 2^1024 or beyond is an infinity, of the right sign |
| `NumberFormat.SeventeenSuffice` | src/ap2p/cJSON.c:449-457 | seventeen significant digits read back as the same double, for every finite double |
| `NumberFormat.PrintedReads` | src/ap2p/cJSON.c:442-458 | what print_number chooses to print for a finite double, fifteen digits or seventeen, is a number of the grammar that reads back as the same double |
| `NumberFormat.PrintedShort` | src/ap2p/cJSON.c:434-464 | it has at most 25 characters, so the length test on the buffer never fails |
| `NumberFormat.IntegersPlain` | src/ap2p/cJSON.c:442-458 | integers below 10^15 are printed as plain digits |
| `NumberFormat.PrintfStyle` | src/ap2p/cJSON.c:449-457 | an exponent is written exactly below 10^-4 and from ten to the precision on, with its sign and two digits at least; no fraction ends in a zero; the value printed is off by half a unit of the last digit at most |
| `NumberFormat.FirstWithExponent` | src/ap2p/cJSON.c:449-452 | the least integer of more than fifteen digits is printed with an exponent |
| `JsonReading.NumeralReads` | src/ap2p/cJSON.c:219-292 | strtod uses up every number of the grammar and gives the double nearest to its value |
| `JsonReading.UnitsWrite` | src/ap2p/cJSON.c:530-755 | the writing pass gives the string the grammar spells, and fails exactly at an unpaired surrogate |
| `JsonReading.ReadText` | src/ap2p/cJSON.c:1147-1543 | wherever a JSON text stands, at any depth, it is read up to its end as its value, exactly if depth, surrogates and number lengths allow |
| `JsonReading.TextDecides` | src/ap2p/cJSON.c:937-1014 | the parser decides every JSON text, with any white space around it: read to its end, or refused |
| `JsonReading.ReadAsMeantIff` | src/ap2p/cJSON.c:937-1014 | the value the grammar gives is what is read, if and only if the text is acceptable and a tree can hold the value |
| `JsonGrammar.HeldIff` | src/ap2p/cJSON.c:646-655 | rounding numbers and cutting strings at their first NUL changes nothing exactly if numbers are doubles and strings have no NUL |
| `JsonParser.NeverBeyondLimit` | src/ap2p/cJSON.c:1286-1290 | on every text, what the parser accepts is nested within the limit and made of doubles and C strings |
| `JsonParser.ScalarInside` | src/ap2p/cJSON.c:1154-1187 | a scalar is read without touching the terminator, so the parser can go on |
| `JsonLanguage.AcceptedIsTree` | src/ap2p/cJSON.c:937-1014 | whatever text is accepted to its end consists of tokens, white space and punctuation in their places, nested within the limit, and is read as the tree of its tokens; an object without a colon, say, is refused |
| `JsonLanguage.AcceptedBeginsWithTree` | src/ap2p/cJSON.c:937-1014 | where trailing characters are allowed, what is accepted begins with such a tree |
| `JsonLanguage.Reads` | src/ap2p/cJSON.c:1147-1543 | so at every place and depth of every text |
| `JsonParseBuffer.ParseBuffer.ParseValue` | src/ap2p/cJSON.c:1147-1200 | on every NUL-terminated text the parser terminates, reads inside the text, and leaves exactly the value and offset of the specification, on failure too |
| `JsonParseBuffer.ParseBuffer.ParseArray` | src/ap2p/cJSON.c:1281-1372 | the element loop with its step back computes the specification's array; the depth is restored |
| `JsonParseBuffer.ParseBuffer.ParseObject` | src/ap2p/cJSON.c:1437-1543 | the same for objects and their names |
| `JsonParseBuffer.ParseBuffer.ParseString` | src/ap2p/cJSON.c:651-777 | the two passes give the unescaped C string, with every write inside the string allocated by the sizing pass |
| `JsonParseBuffer.ParseBuffer.FindClosingQuote` | src/ap2p/cJSON.c:664-690 | the sizing pass finds the closing quote and counts the backslashes |
| `JsonParseBuffer.ParseBuffer.UnescapeInto` | src/ap2p/cJSON.c:697-755 | the writing pass writes exactly the unescaped bytes, up to the first bad escape |
| `JsonParseBuffer.ReadHex4` | src/ap2p/cJSON.c:493-526 | the loop over the four digits computes the code unit, zero on a bad digit |
| `JsonParseBuffer.Utf16LiteralToUtf8` | src/ap2p/cJSON.c:530-648 | a valid escape is written as UTF-8 at the output position and nothing else is touched; a bad one writes nothing |
| `JsonParseBuffer.EncodeUtf8` | src/ap2p/cJSON.c:596-640 | writing the bytes last to first, six bits at a time, gives the encoding |
| `JsonParseBuffer.ParseBuffer.ParseNumber` | src/ap2p/cJSON.c:219-292 | at most 63 characters are copied and the offset moves by what strtod used |
| `JsonParseBuffer.ParseBuffer.SkipWhitespace` | src/ap2p/cJSON.c:916-934 | skipping stops at a visible character or steps back from the end, always inside the buffer |
| `JsonParseBuffer.ParseWithOpts` | src/ap2p/cJSON.c:937-1014 | value and end position, or the reported error position, are those of the specification |
| `JsonPrinter.PrintBuffer.Ensure` | src/ap2p/cJSON.c:326-411 | room is made exactly if it fits the buffer's bound, and the text so far is kept |
| `JsonPrinter.PrintBuffer.UpdateOffset` | src/ap2p/cJSON.c:414-424 | strlen from the offset left behind finds the end of the text |
| `JsonPrinter.PrintBuffer.PrintStringPtr` | src/ap2p/cJSON.c:780-899 | the counted length is the escaped length, and what is written is the quoted text |
| `JsonPrinter.PrintBuffer.PrintNumber` | src/ap2p/cJSON.c:427-489 | the digits of any finite double, and null for infinities and NaN, are written and stepped over, exactly if they fit |
| `JsonPrinter.PrintBuffer.PrintValue` | src/ap2p/cJSON.c:1203-1278 | printing appends exactly the rendering behind the text already there, and succeeds exactly if it and its slack fit |
| `JsonPrinter.PrintBuffer.PrintArray` | src/ap2p/cJSON.c:1375-1434 | the array loop renders every element with its separators |
| `JsonPrinter.PrintBuffer.PrintObject` | src/ap2p/cJSON.c:1546-1657 | the object loop renders names, values, indentation and separators |
| `JsonPrinter.Print` | src/ap2p/cJSON.c:1024-1084 | the printed text is the rendering, or the text and its slack exceed INT_MAX |
| `JsonPrinter.PrintBuffered` | src/ap2p/cJSON.c:1097-1125 | the caller's first size does not matter to the text |
| `JsonPrinter.PrintPreallocated` | src/ap2p/cJSON.c:1127-1144 | a fixed buffer is filled exactly if text and slack fit it |
| `JsonPrinter.PrintThenParse` | src/ap2p/cJSON.c:1017-1090 | printing and parsing give the same tree back, with null for infinities and NaN, exactly if its text fits an int and its nesting the limit |
| `JsonRoundTrip.LayoutPrint` | src/ap2p/cJSON.c:1203-1657 | either print of a value is the text of a syntax tree of the grammar |
| `JsonRoundTrip.LayoutIsText` | src/ap2p/cJSON.c:1203-1657 | so the printer writes JSON, whatever the value |
| `JsonRoundTrip.LayoutMeans` | src/ap2p/cJSON.c:1203-1657 | and a tree holds what the print denotes as the value that was printed, with null for infinities and NaN |
| `JsonRoundTrip.PrintParseRoundTrip` | src/ap2p/cJSON.c:1147-1657 | parsing either print of a value gives that value, with null for infinities and NaN, and uses up the text, exactly if it is nested within the limit |
| `JsonRoundTrip.RecoveredIff` | src/ap2p/cJSON.c:442-446 | that is the value itself exactly if all numbers are finite |
| `JsonRoundTrip.ParsePrintParse` | src/ap2p/cJSON.c:937-1144 | whatever is read out of any text, in the grammar or not, reads back from its print as the same value |
| `JsonRoundTrip.RenderNulFree` | src/ap2p/cJSON.c:414-424 | a rendering holds no NUL, so strlen finds its end |
| `JsonMinify.Minify` | src/ap2p/cJSON.c:2396-2464 | in place, on any text: the reader leaves the text exactly if a string or a block comment is open at its end; otherwise the buffer becomes the minified text |
| `JsonMinify.OpenTexts` | src/ap2p/cJSON.c:2405-2463 | three texts that take the reader past the terminator, and a look-alike that does not |
| `JsonCompact.MinifyCompacts` | src/ap2p/cJSON.c:2396-2464 | minifying any JSON text with comments gives its text without the white space and the comments between tokens |
| `JsonCompact.MinifiedIsRead` | src/ap2p/cJSON.c:2396-2464 | what is left is read as the value the text denotes, or refused, as depth, surrogates and number lengths say |
| `JsonCompact.MinifyKeepsMeaning` | src/ap2p/cJSON.c:2396-2464 | of a text without comments the parser reads the same value before and after, or refuses both |
| `JsonFormat.PrintIsSetOut` | src/ap2p/cJSON.c:1375-1657 | the formatted print of any value has each member on its own line behind a tab for each bracket around it, a tab behind a colon and a space behind an element's comma; the other print has no white space outside of strings; told by a reader of characters that knows nothing of values |
| `JsonFormat.EscapedExactlyIf` | src/ap2p/cJSON.c:799-893 | exactly the quote, the backslash and the control characters are escaped, by their letter if they have one and otherwise by four lower-case digits |
| `JsonCompact.MinifyFormatted` | src/ap2p/cJSON.c:2396-2464 | minifying the formatted print of any value gives exactly its unformatted print |
| `JsonCompact.QuoteLeaves` | src/ap2p/cJSON.c:2443-2455 | a string literal comes through untouched, whatever it escapes |
| `JsonMinify.SafeExactlyIfClosed` | src/ap2p/cJSON.c:2405-2463 | the text has a minified form exactly if a character-by-character reading ends outside of strings and block comments |
| `JsonCompare.Compare` | src/ap2p/cJSON.c:2566-2689 | the walk answers whether the trees denote the same value and neither is inconsistent; on distinct names and without NaN, value equality |
| `JsonCompare.GetObjectItem` | src/ap2p/cJSON.c:1712-1738 | the first member of that name, or none |
| `JsonCompare.SameMeansEqual` | src/ap2p/cJSON.c:2566-2689 | the exact meaning on all trees, objects read as finite maps |
| `JsonCompare.CompareSymmetric` | src/ap2p/cJSON.c:2646-2684 | symmetric on all trees |
| `JsonCompare.CompareTransitive` | src/ap2p/cJSON.c:2566-2689 | transitive on all trees |
| `JsonCompare.EqualsItsCopyIff` | src/ap2p/cJSON.c:2566-2689 | a tree equals its copy if and only if no object gives a name two values that differ, and no number is NaN |
| `JsonCompare.DuplicateNames` | src/ap2p/cJSON.c:2646-2662 | a name twice with different values makes an object differ from its copy; twice with equal values does not |
| `JsonList.Parent.GetArrayItem` | src/ap2p/cJSON.c:1683-1700 | the item at an index, null behind the end |
| `JsonList.Parent.GetArraySize` | src/ap2p/cJSON.c:1660-1681 | the walk along next visits every item once |
| `JsonList.Parent.AddItemToArray` | src/ap2p/cJSON.c:1785-1810 | the item is appended with all that hangs on its next link, links mirrored |
| `JsonList.Parent.DetachItemViaPointer` | src/ap2p/cJSON.c:1871-1899 | remove, links mirrored, the detached item points nowhere |
| `JsonList.Parent.DetachItemFromArray` | src/ap2p/cJSON.c:1901-1909 | remove at an index; nothing for an index outside |
| `JsonList.Parent.InsertItemInArray` | src/ap2p/cJSON.c:1941-1968 | insert at an index, append with its chain behind the end, nothing for a negative index |
| `JsonList.Parent.ReplaceItemViaPointer` | src/ap2p/cJSON.c:1970-2003 | update in place, links handed over, the replaced item points nowhere |
| `JsonList.MirroredInserted` | src/ap2p/cJSON.c:1956-1967 | the links after an insertion are those of the new sequence |
| `JsonList.MirroredJoined` | src/ap2p/cJSON.c:1785-1810 | the links after an append are those of the joined sequence |
| `FanOutRing.Ring.Write` | src/consumer-srt-android/consumer_srt_p2p.c:184-190 | after the one or two copies the ring holds the newest bytes of the stream |
| `FanOutRing.Ring.CacheHeader` | src/consumer-srt-android/consumer_srt_p2p.c:396-401 | the cache is the first bytes of the stream, up to its size |
| `FanOutRing.Ring.DrainClient` | src/consumer-srt-android/consumer_srt_p2p.c:192-229 | one drain of one client is a function of the stream, the client and what its socket takes; it is dead exactly if its response header was refused, or its socket is found gone before it is up to date |
| `FanOutRing.Ring.DrainHeader` | src/consumer-srt-android/consumer_srt_p2p.c:197-204 | the replay goes on where it stopped, through partial sends, up to what is cached by now; it is dead exactly if the first answer that stops it says so |
| `FanOutRing.Ring.DrainRing` | src/consumer-srt-android/consumer_srt_p2p.c:217-227 | what is sent is what the ring gives for the positions the cursor passes; drained exactly with the cursor at the live end, dead exactly if the first answer that stops it says so, blocked otherwise |
| `FanOutRing.ReadRingOutcome` | src/consumer-srt-android/consumer_srt_p2p.c:217-227 | how far the ring part gets and how it comes out, from the answers alone |
| `FanOutRing.ReplayOutcome` | src/consumer-srt-android/consumer_srt_p2p.c:197-204 | the same of the replay, which takes as many bytes as the answers give it |
| `FanOutRing.DrainOutcome` | src/consumer-srt-android/consumer_srt_p2p.c:192-229 | a whole drain: dead exactly if the header is refused, or not all is sent and the first answer that stops it is a failure or takes nothing; a socket that would block only ends it |
| `FanOutRing.ServedExactly` | src/consumer-srt-cloud/consumer_srt.c:254-269 | not more than the ring's size behind, that is the stream; a position is overwritten exactly if it is further behind |
| `FanOutRing.Compact` | src/consumer-srt-cloud/consumer_srt.c:271-282 | compaction in place keeps the open clients, unchanged and in order |
| `FanOutRing.InOrderIsPrefix` | src/consumer-srt-android/consumer_srt_p2p.c:192-229 | bytes sent from the first places of the stream, in order, are a prefix of it |
| `FanOutRing.ReadNotes` | src/consumer-srt-android/consumer_srt_p2p.c:217-227 | reading the ring notes for each byte the place in the stream it came from |
| `AndroidFanOut.SentIsPrefix` | src/consumer-srt-android/consumer_srt_p2p.c:191-229 | what was sent in order is a prefix of the stream, all of it when the client is drained |
| `AndroidFanOut.DrainIsExact` | src/consumer-srt-android/consumer_srt_p2p.c:192-229 | a drain goes on exactly where the last one stopped, across the join of cache and ring although the cache has grown, and its bytes are in order exactly if they were and none is taken too late |
| `AndroidFanOut.AttachedTooLate` | src/consumer-srt-android/consumer_srt_p2p.c:279-304 | a client whose replay is not done when more than cache and ring have been received stays in order exactly until its socket takes a byte out of the ring |
| `AndroidFanOut.StaysInOrderIff` | src/consumer-srt-android/consumer_srt_p2p.c:217-227 | a drain leaves the places sent without gap, duplicate or disorder if and only if its socket takes no byte out of the ring from more than the ring's size behind |
| `AndroidFanOut.ReachOverrun` | src/consumer-srt-android/consumer_srt_p2p.c:395-411 | a consumer run that gets a viewer out of order |
| `AndroidFanOut.Consumer.Drain` | src/consumer-srt-android/consumer_srt_p2p.c:192-229 | a viewer has the outcome of its own drain, dead exactly by that condition, and its bytes stay in order exactly if none is taken too late |
| `AndroidFanOut.Consumer.Receive` | src/consumer-srt-android/consumer_srt_p2p.c:395-411 | a received block reaches ring and cache, every viewer gets the outcome of its own drain and stays in order exactly by that condition; it is kept exactly if its header got through and its socket is not found gone before it is up to date |
| `AndroidFanOut.Consumer.CloseAll` | src/consumer-srt-android/consumer_srt_p2p.c:420-429 | when the provider is gone every client is closed |
| `AndroidFanOut.Consumer.Attach` | src/consumer-srt-android/consumer_srt_p2p.c:279-304 | up to four clients, starting behind the cached prefix |
| `CloudFanOut.Consumer.PruneLagged` | src/consumer-srt-cloud/consumer_srt.c:258-269 | exactly the clients too far behind are closed; the others are untouched |
| `CloudFanOut.DrainServes` | src/consumer-srt-cloud/consumer_srt.c:294-327 | a drain keeps: the replayed cache, whole before the ring is read, and then the stream from where the cursor started |
| `CloudFanOut.Consumer.Drain` | src/consumer-srt-cloud/consumer_srt.c:294-327 | a client has the outcome of its own drain, dead exactly by that condition |
| `CloudFanOut.Consumer.Receive` | src/consumer-srt-cloud/consumer_srt.c:401-423 | each client ends as a function of the stream, itself and its own socket; pruning before draining makes every byte read from the ring a stream byte; it is kept exactly if it has not lagged, its header got through and its socket is not found gone before it is up to date |
| `CloudFanOut.Consumer.NewSession` | src/consumer-srt-cloud/consumer_srt.c:361-382 | a new provider session starts every client over, keeping only its HTTP header |
| `CloudFanOut.Consumer.Attach` | src/consumer-srt-cloud/consumer_srt.c:544-558 | up to eight clients, starting at the live end |
| `CloudFanOut.PrefixExactlyIf` | src/consumer-srt-cloud/consumer_srt.c:368-382 | what was sent is a prefix without gap or duplicate exactly if the ring has not been read for the client, or the stream was as long as the cache when it started |
| `CloudFanOut.LateClientHasGap` | src/consumer-srt-cloud/consumer_srt.c:544-558 | a client that started later never gets the byte behind the cache |
| `CloudFanOut.EarlyClientHasDuplicate` | src/consumer-srt-cloud/consumer_srt.c:361-382 | one that started earlier, as every client does after a session reset, gets the byte it started at twice |
| `CloudFanOut.ReachGap` | src/consumer-srt-cloud/consumer_srt.c:401-423 | a consumer run that gets a client into the first state |
| `CloudFanOut.ReachDuplicate` | src/consumer-srt-cloud/consumer_srt.c:361-423 | a consumer run that gets a client into the second |
| `ConfigReload.State.ApplyPayload` | src/ap2p/config.c:93-152 | the lines of a payload are applied in order; accepted exactly if CTRL_HOST is set afterwards; the first acceptance makes ready, later ones ask for a reload |
| `ConfigReload.State.ConsumeReload` | src/ap2p/state.c:40-51 | the flag is read and cleared in one step |
| `ConfigPayload.LastAssignmentWins` | src/ap2p/config.c:105-134 | the last line for a key counts, other fields keep their values |
| `ConfigPayload.RedeliveryChangesNothing` | src/ap2p/config.c:105-134 | applying the same payload again changes no field |
| `ConfigPayload.PayloadRoundTrip` | src/ap2p/config.c:105-134 | reading a published payload gives exactly the settings published, in order, whatever white space, comments, idle lines and line breaks it is written with |
| `ConfigPayload.PublishedPayloadArrives` | src/ap2p/config.c:48-134 | every known key that is set ends with the last value set: an integer field with the integer the value starts with, sign and digits by their places; a text field with the value, or its beginning that fills the field |
| `ConfigPayload.OtherFieldsStay` | src/ap2p/config.c:126-133 | a field that no setting names, or that is not in the table, keeps its value |
| `ConfigPayload.EveryKeyIsKnown` | src/ap2p/config.c:48-66 | the search finds each of the seventeen keys, with its own kind |
| `ConfigPayload.AtoiReads` | src/ap2p/config.c:85-90 | atoi on every text: white space, a sign, digits by their places, anything behind them |
| `ConfigPayload.DecimalReads` | src/ap2p/config.c:85-90 | every integer is read back from its decimal text |
| `ConfigPayload.LineReadsBack` | src/ap2p/config.c:119-134 | trimming, comment cutting and splitting at the first '=' give back key and value, with any white space around them and any comment behind, if they lie within the first 1023 characters |
| `ConfigPayload.IdleReadsNothing` | src/ap2p/config.c:119-122 | a line without '=' in front of its comment sets nothing |
| `ConfigReload.StepKeepsInv` | src/ap2p/srt_thread.c:884-925 | every step of either thread keeps the invariant |
| `ConfigReload.NoLostReload` | src/ap2p/srt_thread.c:733-739 | a session on a snapshot older than the last accepted payload has the reload pending; a check that lets it go on has found it current |
| `ConfigReload.NextSessionIsFresh` | src/ap2p/srt_thread.c:913-920 | a session that starts after a payload was accepted works from it or a later one |
| `ConfigReload.VersionsGrow` | src/ap2p/config.c:142-147 | accepted payloads are never forgotten and ready stays ready |
| `ConfigReload.SessionNeedsPayload` | src/ap2p/state.c:53-82 | no session runs before a payload was accepted |
| `ConfigReload.FlagsTell` | src/ap2p/config.c:142-147 | the version counts the accepted payloads, the first one makes ready, and only a request shuts down |
| `ConfigReload.PendingIff` | src/ap2p/state.c:40-51 | a reload is pending exactly if a payload other than the first was accepted since the last check |
| `ConfigReload.SessionEndsOnlyIf` | src/ap2p/srt_thread.c:733-739 | a session goes on until it ends by itself or a check finds a reload pending |
| `ConfigReload.ComesBack` | src/ap2p/srt_thread.c:913-925 | without a shutdown the thread comes back to a session on the configuration of that moment |
| `ConfigReload.NoSessionAfterShutdown` | src/ap2p/srt_thread.c:914-920 | once a shutdown is requested no session starts |
| `EdgeBinding.ReadResponse` | src/ap2p/edge_lite.h:139-176 | on any datagram the checks and the walk terminate in bounds and give the specified address |
| `EdgeBinding.XorTwice` | src/ap2p/edge_lite.h:154-160 | exclusive or with the cookie undoes itself |
| `EdgeBinding.XorBits` | src/ap2p/edge_lite.h:154-160 | bit by bit: set exactly if set in one and not in the other |
| `EdgeBinding.XorMappedRoundTrip` | src/ap2p/edge_lite.h:154-165 | decoding inverts the exclusive-or encoding of address and port, whatever stands in the first byte of the value and behind its eighth |
| `EdgeBinding.MappedRoundTrip` | src/ap2p/edge_lite.h:166-171 | and the plain encoding |
| `EdgeBinding.OthersNotRead` | src/ap2p/edge_lite.h:139-142 | another transaction's response, another message type and less than a header are not read |
| `EdgeBinding.RestNotRead` | src/ap2p/edge_lite.h:143-147 | nothing behind the length in the header is looked at |
| `EdgeBinding.DecodeEncoded` | src/ap2p/edge_lite.h:139-176 | a well-formed response cut at the 2048 bytes of the receive buffer gives the first IPv4 XOR-MAPPED-ADDRESS that arrived, else the last IPv4 MAPPED-ADDRESS, else nothing; all of it if it fits |
| `EdgeBinding.ReflexiveAddressRead` | src/ap2p/edge_lite.h:139-176 | what a server encodes as the reflexive address is what is read, whatever attributes surround it, if the attribute lies within those 2048 bytes |
| `EdgeBinding.FallbackAddressRead` | src/ap2p/edge_lite.h:139-176 | without one the plain address of the last MAPPED-ADDRESS is read |

## Left out

- Numbers are exact reals between print and parse; the sign of a negative zero and `valueint` are not modelled.
- The nesting limit is a parameter: the header file that defines it is not part of this model.
- Raw and reference items, allocation hooks, allocation failure in the parser and printer, and freeing a tree.
- `JsonParseBuffer.ParseBuffer.ParseValue`: a failed parse does not say what the depth is left at, because the buffer is given up then.
- `JsonReading.TextDecides`: says nothing of texts outside the grammar, some of which the parser accepts; `JsonLanguage.AcceptedIsTree` bounds them from the other side, and what is read of them prints and reads back (`JsonRoundTrip.ParsePrintParse`).
- `JsonLanguage.AcceptedIsTree`: which of the strings and numbers outside the grammar are accepted is not said.
- `JsonMinify.Minify`: where the reader has left the text the model stops; what the code then reads and writes behind the buffer is not modelled.
- `JsonCompare.Compare`: the shortcut for comparing an item with itself is not modelled; it differs from the walk only on a tree that does not equal its copy. Strings are compared as C strings without NUL.
- Case-insensitive comparison and lookup, adding to objects by name, and duplication of trees.
- `Transport.ReassemblySafety`: for deliveries within the distances in which the window is right, and one thread per connection cutting its reads.
- Delivery at most once or in order is not claimed: a duplicated datagram can bring a one-chunk frame twice, and late ones can reorder frames.
- `SocketStream.StreamIntegrity`: up to the first send that overtakes; a socket that was shut down or failed accepts nothing afterwards.
- `BufferOwnership.SingleOwnership`: one camera session between connects; session tear-down and reconnection, which leave slots inactive without freeing their buffers, are not modelled.
- The provider's own receive path, which has no sequence window; heartbeats, congestion timing and retries of a send.
- The HTTP response header of the fan-out counts as one success or failure; request parsing is not modelled.
- 64-bit stream counters do not wrap.
- A rejected configuration payload may have written fields; versions count accepted payloads only. Overflow in `atoi` is not modelled. Defaults that a snapshot fills in for empty fields are not modelled.
- Control sessions, STUN requests and their retries, the pump thread, back-off times, MQTT, SRT and ICE themselves.
