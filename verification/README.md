# sockperf: stream framing, sending, bookkeeping and descriptor tables

sockperf measures network latency and throughput between a client and a server. This project models
the parts of it that are state machines and proves what they are for. Each module follows one component.

- `Messages`, `Framing`, `MessageParser`, `InputHandlers`: the wire format, and the parser that turns a
  byte stream, cut into reads in any way, into messages. `Framing.Serve` is the simple specification
  (split the stream by declared length); the imperative parser with its in-place and its copying
  accumulation strategy refines it. Pointers are pairs of an array and a position.
- `Sender`, `Server`, `EndToEnd`, `PingPong`: the partial-send loop, the pong modes and
  `client_send_packet`; the server's treatment of a message; the composition of all of these over stream
  sockets, one way (gap detection) and there and back (data integrity). A socket is a script of outcomes,
  a read is any cut of the stream.
- `Packet`, `Statistics`, `GapDetector`, `Pacing`, `Measurement`: the table of send and receive times, the
  loop that classifies replies, the gap detector, the pacing that must not outrun the table, and the
  statistics on the books that the sender kept.
- `ConnectionTable`, `RecvfromMux`, `SocketRing`, `ThreadDivision`, `Socketxtreme`: the table of accepted
  connections and what `select()` and `poll()` are given, the rotation over sockets, the ring of the send
  loop, the division among threads, and the completion queue.
- `Ticks`: conversion between nanoseconds and ticks in 64-bit arithmetic.
- `Arith`, `Sets`, `Options`: helpers.

Times are integers, 0 meaning "not set". 64-bit and 32-bit wrap-around is written out where it matters
(gap detector, sequence counter, tick conversion, the `10 * reply_every` of the table size). The host is
little-endian.

Some properties one would expect hold only under a condition. For each the model does what the code does,
and the condition is proved exact, as an if-and-only-if; where it does not name a failing input, a further
member gives one:

- The parser makes progress on every header however it was split if and only if the declared length is at
  least 14 (`ProgressExactly`); the header check looks only at the upper end. A whole header that declares
  length 0 is handed to the handler over and over (`Stall`).
- A step of the gap detector counts right if and only if the highest number seen is not 2^64 - 1
  (`CountsExactly`, `WrapsAround`).
- The gap total of a gapless stream stays 0 if the server replies; a server that does not reply takes pong
  requests out of the gap detector's sight, and then it stays 0 only until a pong request is followed by
  another request (`NoGapsExactly`).
- An honest echo passes the data integrity check if and only if the client still holds that request and
  leaves the pong flag set, as `PongModeAlways` does and `PongModeNormal` does not (`IntegrityExactly`).
- Paced runs stay within the table if and only if the rounded-down cycle is positive and not too short
  (`BoundedExactly`, `NotAlwaysBounded`); with an unlimited rate the cycle is 0 and nothing bounds them
  (`UnlimitedIsUnbounded`).
- The drops reported are those of the whole window unless all recorded replies are accepted and the last
  request of the window was lost (`DroppedExactly`).
- A round of polls adds to the completions still to come exactly what the rings return, whatever that is,
  if and only if none were still to come (`RoundExactly`, and `PollExactly` for one ring). The client polls
  between sends without analysing.

The statistics read the block after the last one used only if there is no cool-down, that is in playback:
with one, they never leave the table (`ClientStatistics`). A playback that sends all its messages fills its
table (`PlaybackFillsTable`), and then they end the program exactly if some reply is not accepted. In runs
measured by time, whether that block has its place in the table is
decided by the slack, which is computed in 32 bits (`LookAheadExactly`); it has if `10 * reply_every` does
not wrap (`SlackCovers`), and there is a setting where it has not (`SlackCanWrap`).

Likewise the sanity check on the ring of sockets accepts the links made from a feed file if and only if
the first socket opened has the smallest descriptor and the last one the largest (`LinkedExactly`). The
comment on `BufferAccumulation` asks for a buffer of MAX_PAYLOAD_SIZE bytes; a message may declare one byte
more, because `Message::ms_maxSize` may be one larger, and the model asks for a buffer that holds it.

## Model

| member | source | states |
|---|---|---|
| Messages.StoreLoad | src/message.h:147-157 | a number stored in k bytes reads back as itself |
| Messages.LoadStore | src/message.h:147-157 | what is read from k bytes fits them, and storing it gives the same bytes |
| Messages.ClearThenSet | src/message.h:53-63 | setting a flag undoes clearing it exactly on messages that had it, and conversely |
| Messages.FlagMasks | src/message.h:53-63 | the client, pong and warmup flags are the bits of value 1, 2 and 4 |
| Messages.RewriteSeqNo | src/message.h:147-157 | writing back a header's own sequence number changes no byte |
| Messages.ReverseRange | src/message.h:65-75 | reverses a byte range in place and touches nothing else |
| Messages.SwapHeaderIn | src/message.h:65-75 | the in-place conversion reverses exactly the three header fields |
| Messages.SwapTwice | src/message.h:65-75 | host to network and back is the identity, payload included |
| Messages.NetworkOrder | src/message.h:65-75 | after the conversion the sequence number and the length stand most significant byte first, the two flag bytes are exchanged and the payload is as it was |
| Framing.ServeAppend | src/message_parser.h:55-105 | chunking independence: serving a stream in two parts, from the unfinished tail of the first, is serving it at once, refusals included |
| Framing.ServeFraming | src/message_parser.h:55-105 | a concatenation of well-formed messages and an unfinished tail is handed over as exactly these messages, in order, and the tail is kept |
| Framing.FramingExists | src/message_parser.h:55-105 | every stream without runts that is served to the end is such a concatenation |
| MessageParser.ProgressExactly | src/message_parser.h:107-169 | what process_chunk takes when the header is completed is positive for every split, if and only if the declared length is not below the header size |
| MessageParser.NextReadSuffices | src/message_parser.h:116-154 | the next read is never empty and has room for the rest of the header, or of the message once its length is known |
| MessageParser.Receiver.StalledPass | src/message_parser.h:65-94 | a pass of the loop on a header that declares length 0 calls the handler, consumes nothing and leaves such a header |
| MessageParser.Receiver.Stall | src/message.h:174-177 | so any number of passes consumes nothing, because the header check accepts it |
| MessageParser.RoomPending | src/message_parser.h:111-156 | extending the read window for a tail header or tail message stays within what the strategy owns |
| MessageParser.RoomDone | src/message_parser.h:158-168 | finishing a message keeps the window within bounds; an extended read holds no bytes of the next message |
| MessageParser.Receiver.constructor | src/sockperf.cpp:3396-3404 | a fresh receive context satisfies the invariant |
| MessageParser.Receiver.InPlaceBound | src/message_parser.h:172-194 | in every state between reads a message starts below max_size and the next read ends within the doubled buffer |
| MessageParser.Receiver.MatchHeader | src/message_parser.h:122-130 | the header is converted exactly when its last byte arrives, once |
| MessageParser.Receiver.AwaitHeader | src/message_parser.h:110-121 | an incomplete header: offset and next read size |
| MessageParser.Receiver.Advance | src/message_parser.h:132-168 | oversized, unfinished and finished messages, runts included: bytes consumed, offset and next read size |
| MessageParser.Receiver.ProcessChunk | src/message_parser.h:107-169 | process_chunk on any header: the bytes held in memory are the received ones with a complete header converted, and exactly how much was consumed |
| MessageParser.Receiver.TakeBytes | src/message_parser.h:107-169 | in a stream without runts every chunk gets ahead |
| MessageParser.Receiver.ResetReadBuffer | src/message_parser.h:180-183 | reads go to the start of the buffer again, in place only |
| MessageParser.Receiver.StartAccumulation | src/message_parser.h:185-212 | the unfinished message is where the strategy keeps it; in place the asserted pointer equality holds |
| MessageParser.Receiver.AccumulateMore | src/message_parser.h:190-216 | the chunk follows the received part; in place the asserted pointer equality holds |
| MessageParser.Receiver.HandleMessage | src/message_parser.h:77-82 | the handler gets the whole message in host order, or the news that it is oversized; it may turn the client flag in place, and nothing else |
| MessageParser.Receiver.Pass | src/message_parser.h:65-94 | one pass of the loop consumes at least one byte and keeps the service of the remaining stream, for both strategies |
| MessageParser.Receiver.ProcessBuffer | src/message_parser.h:55-105 | process_buffer refines the splitting specification: handler calls, answer and kept tail are those of pending bytes plus input |
| InputHandlers.ReceiveInPlace | src/input_handlers.h:52-115 | a read of at most cur_size bytes at cur_addr + cur_offset continues the service of the stream |
| InputHandlers.ReceiveBuffered | src/input_handlers.h:259-286 | a foreign buffer of any size continues the service of the stream |
| InputHandlers.RunInPlace | src/input_handlers.h:52-115 | for every sequence of read sizes the handler calls are those of the specification on the bytes read |
| InputHandlers.RunBuffered | src/input_handlers.h:165-175 | the same for buffers of any sizes, so both strategies deliver the same messages |
| GapDetector.CountsExactly | src/switches.h:285-310 | check_gaps keeps the maximum and adds the numbers a new maximum skips, if and only if the highest number seen is below 2^64 - 1 |
| GapDetector.WrapsAround | src/switches.h:286-293 | after the largest number every further one is counted wrong |
| GapDetector.MissedMeansLostOrLate | src/switches.h:285-306 | a missed number never came or came after a larger one |
| GapDetector.MissedStep | src/switches.h:285-306 | an arrival adds to the missed numbers exactly those it skips |
| GapDetector.SessionMeaning | src/server.cpp:625-668 | for every arrival order the session holds the maximum of base and arrivals, and its total is the number of missed numbers; a warmup restarts it |
| GapDetector.ClientsAreIndependent | src/server.cpp:625-668 | the session of each client is that of its own packets alone |
| GapDetector.SwitchOnCalcGaps.Execute | src/server.cpp:625-668 | one packet changes exactly its client's session, by one step |
| GapDetector.SwitchOnCalcGaps.Check | src/switches.h:285-306 | check_gaps on the stored session, with 64-bit wrap-around |
| GapDetector.ExecuteAll | src/server.cpp:625-668 | packets of any clients in any order leave the sessions that SessionMeaning and ClientsAreIndependent speak of |
| Packet.CellsDiffer | src/packet.h:44-47 | cells of different slots or servers never share memory |
| Packet.CellInRange | src/packet.cpp:35-42 | every cell of every slot lies within the allocation |
| Packet.PacketTimes.constructor | src/packet.cpp:35-42 | the table has a slot for every pong request, all unset |
| Packet.PacketTimes.Write | src/packet.h:49-71 | writing one cell changes that cell of the abstract table only |
| Packet.PacketTimes.SetTxTime | src/packet.h:53-57 | sets the send time of the slot, keeps everything else |
| Packet.PacketTimes.ClearTxTime | src/packet.h:52-52 | clears the send time of the slot, keeps everything else |
| Packet.PacketTimes.SetRxTime | src/packet.h:61-71 | first reply recorded, repetitions counted; the receive count is the number of cells set, and with the duplicates it accounts for every reply before exit |
| Statistics.View.EachOnce | src/client.cpp:474-525 | accepted, dropped and out-of-order together are the slots in the window |
| Statistics.View.CountsAreSizes | src/client.cpp:487-510 | the counts are the sizes of three sets, each declared slot by slot: sent in the window, unanswered, and overtaken by an earlier slot |
| Statistics.View.InAccepted | src/client.cpp:487-524 | a slot is accepted if and only if it is in the window and answered and no earlier slot of the window was answered later |
| Statistics.View.AcceptedInOrder | src/client.cpp:474-525 | accepted slots were answered, were not overtaken, and their replies came in order |
| Statistics.View.LatencyOf | src/client.cpp:517-521 | the k-th latency is that of the k-th accepted slot |
| Statistics.QuotientMeans | src/client.cpp:521-521 | the division by the denominator truncates toward zero: quotient and remainder, for both signs |
| Statistics.View.SumOfAccepted | src/client.cpp:520-520 | the sum of round-trip times is that over the accepted slots |
| Statistics.LatestDecides | src/client.cpp:507-510 | comparing with the last accepted receive time decides whether any earlier slot of the window was answered strictly later |
| Statistics.StopIsLossless | src/client.cpp:474-474 | when as many were accepted as recorded, no later slot holds a reply and all earlier replies were accepted |
| Statistics.Classifier.Visit | src/client.cpp:487-524 | one slot is dropped, out of order or accepted, as declared |
| Statistics.Classifier.Classify | src/client.cpp:474-525 | the greedy loop computes the declarative classification of the slots up to where it stops, within its latency array; it runs out of the table, which ends the program, exactly if no slot ends it and not all replies are accepted |
| Statistics.Classifier.StopMeans | src/client.cpp:474-485 | every slot visited was sent in time and below the end number; the one that ended the loop was not, or all replies were accepted |
| Statistics.Classifier.DroppedExactly | src/client.cpp:474-503 | the drops counted are those of the whole window, except exactly if all recorded replies are accepted and the last request of the window was lost |
| Statistics.Classifier.NothingLeft | src/client.cpp:374-377 | an early stop leaves no reply of this server unvisited, for any number of servers |
| Sender.TransmitMeans | src/common.h:109-165 | the size is returned exactly if all bytes went out, "skipped" exactly if the first call would block, and on a clean socket nothing else |
| Sender.TransmitExactly | src/common.h:109-165 | the call that ends the transfer, the code for what happened there (shutdown, skipped, error) and the bytes that went out until then |
| Sender.MsgSendto | src/common.h:109-165 | the loop computes that transfer for every script of the socket |
| Sender.TimelineNext | src/switches.h:151-200 | a timed request fills the next slot with a time not below the earlier ones, later slots stay empty |
| Sender.BooksNext | src/client.h:148-171 | attempts equal sequence counter plus skips, and a skipped attempt leaves the send times as they were |
| Sender.StreamsNext | src/common.h:109-165 | one more whole request extends the stream and the numbering |
| Sender.Client.constructor | src/switches.h:143-149 | a new client: number 0, client flag, pong flag as the mode wants it, empty books |
| Sender.Client.Emit | src/switches.h:188-196 | the request goes out in network order and is in host order again afterwards |
| Sender.Client.EmitTimed | src/switches.h:154-165 | the send time is taken before and cleared again if the call was skipped |
| Sender.Client.SendTo | src/switches.h:151-226 | all three pong modes: bytes on the wire, send time, and the request unchanged afterwards |
| Sender.Client.Attempt | src/client.h:151-153 | the next number is taken and the request sent; what the books would be |
| Sender.Client.ClientSendPacket | src/client.h:148-171 | a skipped request gives its number back and restores header and table; every attempt keeps the books |
| Sender.Client.SetLength | src/message.h:172-172 | sets the length and nothing else |
| Sender.Client.StreamPacket | src/client.h:148-171 | over a clean stream socket a request goes out whole or not at all, and exactly the tries that would block at once are skipped |
| Sender.WireFormat | src/client.h:148-171 | on the wire the k-th request is k + 1 and its length in big-endian bytes, the flag bytes 0 and 1 or 3, and the payload |
| Server.Server.HandleMessage | src/server.h:308-382 | what is counted, echoed and passed to the gap detector, for every message and every outcome of the reply |
| Server.EchoMeans | src/server.h:345-348 | the echo differs from the request in the client flag only, which it keeps in bridge mode and clears otherwise |
| EndToEnd.SendAll | src/client.h:148-171 | a run of sends: the stream is the numbered requests of the tries not skipped, in order |
| EndToEnd.StreamIsServed | src/message_parser.h:55-169 | a stream of requests is handed over as exactly these requests, unchanged, with nothing left |
| EndToEnd.PrefixIsServed | src/message_parser.h:55-169 | whatever has arrived of it has been handed over as a first part of the requests |
| EndToEnd.HandleAll | src/server.h:308-382 | the server's receive count and the client's session after n requests; other clients are untouched |
| EndToEnd.OverStream | src/common.h:109-162 | end to end: for every script of partial sends and blocked calls and every cut into reads, with either strategy, the server handles exactly the sent requests that arrived, numbered 1..n |
| EndToEnd.SessionNext | src/switches.h:285-306 | the closed form of the session is what the gap detector computes |
| EndToEnd.NoGapsExactly | src/server.h:340-344 | the gap total of such a run is positive if and only if the server does not reply and a pong request was followed by another request |
| PingPong.EchoRestores | src/server.h:345-348 | the echo of a request, marked as the client's again, is the request byte for byte |
| PingPong.IntegrityExactly | src/switches.h:247-259 | an honest echo passes the check if and only if the buffer still holds that request in that length and the mode keeps the pong flag |
| PingPong.IntactExactly | src/switches.h:247-259 | for any reply: the check passes if and only if every byte up to the length of the request agrees, but for the client flag, which may be missing |
| PingPong.TamperedIsRefused | src/switches.h:258-258 | a reply that differs in any one byte of the payload does not pass |
| PingPong.HandleReply | src/client.h:237-300 | a reply is refused, ignored or recorded and checked, as its number and flags say |
| PingPong.Deliver | src/input_handlers.h:52-115 | more bytes of a stream, in any pieces, continue the service on a receiver that lives on |
| PingPong.PlayRound | src/client.h:388-391 | a round trip: request and echo arrive unchanged, the reply is recorded and found intact |
| PingPong.Run | src/client.cpp:1042-1047 | in every ping-pong run, with either strategy on either side, every reply is recorded once and accepted by the data integrity check |
| PingPong.ReceiveEcho | src/client.h:237-300 | the echo of the request still held is recorded in its slot and found intact |
| PingPong.ReceiveTampered | src/client.h:237-300 | an echo with one byte of the payload changed is recorded and found not intact |
| Pacing.Pacer.Wait | src/switches.h:83-97 | passes at the first clock reading that reaches the next cycle |
| Pacing.Pacer.SendBurst | src/client.h:342-371 | a burst after the wait, of at most the burst size |
| Pacing.Pacer.SendLoop | src/client.cpp:1107-1111 | the sequence counter is the total of the bursts of the run |
| Pacing.CycleIsLargest | src/sockperf.cpp:3699-3699 | the cycle of a limited rate is the largest whole number of nanoseconds in which no more than a burst is due |
| Pacing.DurationCovers | src/sockperf.cpp:3733-3735 | the duration the table is sized for exceeds test, warm-up and cool-down, by at most a second |
| Pacing.RunsArePaced | src/client.cpp:1028-1030 | the k-th burst of every run starts no earlier than k cycles after the start |
| Pacing.PacedIsARun | src/switches.h:83-97 | every paced list of bursts is a run of the loop |
| Pacing.BoundedExactly | src/sockperf.cpp:3699-3738 | all runs within the test duration keep the sequence counter at most the table size less the slack, if and only if the cycle is positive and duration / cycle bursts do not exceed the rate the table is sized for |
| Pacing.ExactCycleIsBounded | src/sockperf.cpp:3699-3699 | they do if the cycle is exact |
| Pacing.EvenRateIsBounded | src/sockperf.cpp:3699-3699 | so the start-up settings of every rate that divides the burst evenly over the nanoseconds bound all runs |
| Pacing.NotAlwaysBounded | src/sockperf.cpp:3699-3738 | a rate at which a run of the shortest test outgrows the table |
| Pacing.UnlimitedIsUnbounded | src/sockperf.cpp:3701-3704 | with an unlimited rate the table is sized for MPS_MAX and nothing paces a run |
| Pacing.LookAheadExactly | src/sockperf.cpp:3733-3738 | for all numbers within the bound from the first pong request on, the next block has its place in the table, if and only if the slack covers the rest of a block or no pong request is within the bound |
| Pacing.SlackCovers | src/sockperf.cpp:3736-3738 | it has its place if ten times the reply interval fits 32 bits |
| Pacing.SlackCanWrap | src/sockperf.cpp:3736-3737 | a rate and a reply interval of the shortest test where the tenfold wraps and the next block has no place |
| Measurement.UnsetSlotExactly | src/packet.cpp:35-42 | the send times leave a slot unset if and only if the block after the last number used has its place |
| Measurement.PlaybackFillsTable | src/sockperf.cpp:3745-3747 | a table sized by the number of messages has no place for the block after the last |
| Measurement.RunsOutExactly | src/client.cpp:474-481 | with a cool-down the loop ends within the table; without one it runs out exactly if the next block has no place and not all replies are accepted |
| Measurement.ClientStatistics | src/client.cpp:373-525 | client_statistics on the sender's books: no replies, too short (exactly if the window ends before it starts), table left or report, each exactly when; with a cool-down, or if the next block has its place, the table is never left; and what is reported |
| ConnectionTable.AcceptKeeps | src/server.cpp:292-320 | accepting into an unused place keeps the table consistent |
| ConnectionTable.AcceptJoins | src/server.cpp:299-305 | exactly the new socket becomes registered, as a connection of its listener and in its list, counted once; all else stays |
| ConnectionTable.CloseKeeps | src/server.h:240-256 | closing keeps the table consistent |
| ConnectionTable.CloseLeaves | src/server.h:240-256 | exactly the closed socket leaves table and list, counted once; all else stays |
| ConnectionTable.Table.constructor | src/sockperf.cpp:3386-3392 | a table of listeners without connections is consistent |
| ConnectionTable.FirstUnused | src/server.cpp:299-303 | below the limit there is an unused place before the last one |
| ConnectionTable.Table.Accept | src/server.cpp:245-347 | all outcomes of an accept: the new socket joins table and list or nothing changes; the count stays the number of used places and the last place stays unused |
| ConnectionTable.Table.Close | src/server.h:212-258 | the connection leaves list and table and its listener counts one less; nothing else changes |
| ConnectionTable.CloseAfterReply | src/server.h:298-303 | closing a second time, after the reply met a closed connection, changes nothing more |
| ConnectionTable.Scan | src/iohandlers.h:188-209 | the scan of a list finds exactly its sockets and stops before the last place, as asserted |
| ConnectionTable.SelectUpdate | src/iohandlers.h:172-212 | select() is given exactly the registered sockets, with the smallest look range |
| ConnectionTable.PollPrepare | src/iohandlers.cpp:182-204 | the poll array starts with the listeners, each once |
| ConnectionTable.PollUpdate | src/iohandlers.h:244-283 | the poll array holds exactly the registered sockets, each once, within its max_fds_num places |
| ConnectionTable.Pigeonhole | src/iohandlers.cpp:185-185 | different registered sockets fit the array |
| SocketRing.FdsArrayIsValid | src/sockperf.cpp:3500-3518 | the check finds out whether max is first reached after num - 1 links and links back |
| SocketRing.CheckedExactly | src/sockperf.cpp:3500-3518 | that is so if and only if following the links is a cycle of exactly num different sockets |
| SocketRing.RingCovers | src/sockperf.cpp:3500-3518 | the sockets of the ring are registered, and all of them if num are |
| SocketRing.OpenSockets | src/sockperf.cpp:3406-3417 | the links made while sockets are opened in any order |
| SocketRing.LinkedExactly | src/sockperf.cpp:3406-3458 | the check accepts them if and only if the first descriptor is the smallest and the last the largest |
| SocketRing.SendLoop | src/client.cpp:1107-1111 | turn k serves the socket k links from the start |
| SocketRing.WindowDistinct | src/client.cpp:1107-1111 | two turns less than a round apart serve different sockets |
| SocketRing.WindowFair | src/client.cpp:1107-1111 | every num consecutive turns serve every socket of the ring exactly once |
| RecvfromMux.StepNext | src/iohandlers.h:140-147 | moving on by one socket finds the next eligible one or does not lose it |
| RecvfromMux.NextMeans | src/iohandlers.h:140-147 | the next socket is the first eligible one after the current one, or the first of all if there is none |
| RecvfromMux.KeepsTurn | src/iohandlers.h:134-147 | the socket that is next and still ahead is next in every other range that holds it |
| RecvfromMux.IoRecvfromMUX.constructor | src/iohandlers.cpp:114-117 | the start of the rotation: before the first socket, or at it if it is the only one |
| RecvfromMux.IoRecvfromMUX.WaitArrival | src/iohandlers.h:140-147 | ends, and selects the next eligible socket of the circle |
| RecvfromMux.IoRecvfromMUX.SelectAll | src/iohandlers.h:140-147 | as many calls as there are eligible sockets select them in circular order |
| RecvfromMux.EachOnce | src/iohandlers.h:140-147 | so each eligible socket is selected exactly once |
| RecvfromMux.EndsExactly | src/iohandlers.h:140-147 | the search ends if and only if the range holds an eligible socket |
| RecvfromMux.IoRecvfromMUX.Update | src/iohandlers.h:100-138 | the range comes to span all registered sockets; where the rotation then stands, by cases; within the range of the listeners the socket ahead keeps its turn |
| RecvfromMux.AlwaysSomething | src/iohandlers.h:100-147 | after an update an eligible socket exists whenever any socket is registered |
| ThreadDivision.FindMinMaxFds | src/server.cpp:446-459 | the smallest range from a start on that holds a given number of sockets |
| ThreadDivision.CountIsSize | src/server.cpp:446-459 | the number of sockets counted is the size of their set |
| ThreadDivision.Divide | src/server.cpp:545-584 | the ranges of the threads increase, hold as many sockets as they say, cover every socket, and differ in size by at most one |
| ThreadDivision.ExactlyOne | src/server.cpp:545-584 | every socket belongs to exactly one thread |
| Socketxtreme.OrderlyNext | src/iohandlers.h:545-559 | polling a ring, after giving back what it returned last, keeps its calls orderly |
| Socketxtreme.OrderlyGivesBack | src/iohandlers.h:545-559 | said of the calls alone: after each poll but the last exactly its packets are given back, as often as it returned them, before the next; nothing else ever is |
| Socketxtreme.IoSocketxtreme.PollRing | src/iohandlers.h:545-559 | one poll keeps that order of calls for every ring |
| Socketxtreme.IoSocketxtreme.PollAndQueue | src/iohandlers.h:545-566 | a polled ring that returned something is queued and counted |
| Socketxtreme.IoSocketxtreme.WaitArrival | src/iohandlers.h:540-568 | in any state every ring is polled and holds what it returned, those that returned something are queued in order and counted; after a drained round these completions are what is to come |
| Socketxtreme.IoSocketxtreme.AnalyzeArrival | src/iohandlers.h:570-603 | takes the next completion in queue order and finds its socket: the listener of a new connection, else the user data of a packet or another event, else 0 |
| Socketxtreme.Run | src/iohandlers.h:540-603 | over any number of drained rounds exactly the returned completions are analysed, each once, in order, the queue ends empty, and every ring gave back the packets of each of its rounds once before the next |
| Socketxtreme.PollExactly | src/iohandlers.h:560-566 | a poll of a ring adds its result to what is to come, for all results, if and only if the ring is neither queued nor being analysed |
| Socketxtreme.RoundExactly | src/client.h:359-364 | a round of polls does, for all results, if and only if nothing was still to come |
| Ticks.ConversionsAreExact | src/ticks.h:151-174 | both branches of both conversions are the exact quotient rounded down, and overflow if and only if it does not fit |
| Ticks.BelowLimit | src/ticks.cpp:82-85 | below the limit the small-number products fit 64 bits |
| Ticks.ConversionsAreMonotone | src/ticks.h:151-166 | both conversions are monotone across their branches |
| Ticks.RoundTrip | src/ticks.h:151-166 | nanoseconds to ticks and back never gains and loses less than 1 + 10^6 / TICKS_PER_MSEC |

## Left out

- Declared lengths below 14 and streams broken by a signal in mid-message are preconditions of the framing results (`NoRunt`, `Clean`); what process_chunk does with runts is stated by ProcessChunk, ProgressExactly and Stall.
- Sender.Client.ClientSendPacket: except in PongModeNever, sequence numbers above the table size end the program there; the model requires that they stay below, which is what Pacing bounds.
- Statistics.Classifier.Classify: the start and end of the valid interval and the full log are not modelled; without any reply the program does not get there.
- Measurement.ClientStatistics: number-based runs, which start later and end at a number, are not composed with the sender's books.
- PingPong.Run: one server; requests and replies that would block at once are not part of a ping-pong round.
- Socketxtreme.IoSocketxtreme.WaitArrival: the order in which the map of rings is walked is fixed, and a failing poll is one that returns nothing.
- ConnectionTable.CloseAfterReply: the second close takes the listener from an entry that the first one freed; the model takes it to be unchanged.
- ConnectionTable.Table.Accept: accept() is taken to return unused descriptors outside the range of the listeners.
- Server.Server.HandleMessage: the end of the test (`g_b_exit`), destination addresses and activity statistics are not modelled; closing a connection is in ConnectionTable.
- GapDetector.SessionMeaning: session keys are compared by equality; AF_UNIX clients, which the program's key comparison does not tell apart, are outside.
- Pacing is stated for the nanosecond clock, not for the tick counter, and not for playback mode or number-based runs, whose tables are sized differently.
- Multicast sockets that join an already open one, prepare_socket, bind, listen, setsockopt, address resolution, threads, timers and signals.
- TLS, the VMA and XLIO libraries, epoll and kqueue (the same scan as select and poll), UDP receive paths.
- Floating-point statistics, histograms, printing and log files; command-line and feed-file parsing; playback.
