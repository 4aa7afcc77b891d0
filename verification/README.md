# Verified model of the automotive gateway

A Dafny 4.11 model of the gateway's logic between the system calls, with proofs of what it promises. The
gateway bridges CAN to SOME/IP, announces its services with SOME/IP service discovery, and serves diagnostics
over DoIP. Four parts are modelled:

* **DoIP** (`doip_*.dfy`, `uds.dfy`, `kernel.dfy`, `event_loop.dfy`). The server reassembles length-prefixed
  frames in a 4096-byte buffer for each connection, keeps a session for each, and runs in a single-threaded
  event loop with descriptor reuse. The classes work in place on an `array`, a connection map and a reader
  table. Every socket operation goes into a trace, and `DoipTrace.Served` is the law that every trace obeys.
  That law looks at one connection at a time, and at nothing but the bytes received since its own accept.
  From it follow chunking independence, non-interference, session safety and the exact condition under which
  the server hangs up. `DoipSchedule` says what a schedule of events calls for, and that a connection depends
  on nothing but the events on its own descriptor. The generic header is that of ISO 13400-2; the UDS services
  are those of ISO 14229-1:2013, sections 9.2, 9.3, 10.2 and 11.3.
* **Service discovery** (`sd_*.dfy`, `sessions.dfy`). A builder and serializer on one side, an independent
  entry walker on the other. They agree on every message the gateway builds; on arbitrary datagrams the
  walker's effect is stated exactly.
* **CAN pipeline** (`can_*.dfy`, `dbc_*.dfy`, `someip_*.dfy`, `gateway.dfy`). Bit extraction, sign extension,
  clamping, the DBC reader, the publisher, and the main loop that ties them together.
* **Latency histograms** (`order_statistics.dfy`, `benchmark.dfy`).

How the system is read:

* Integers are unbounded; every cast and wrap of the original is written out. `size_t` is taken to be 64 bits
  wide, so that `8 + payload_length` (`src/doip/doip_server.cpp:89`) and the frame counters do not wrap.
* `send` takes the whole buffer. `recv` returns a prefix of what the peer has to offer that fits the room, and
  a result of zero or an error means closed, as the server treats it. `accept` never returns an open
  descriptor, `close` removes a descriptor from the interest list, and a batch of events names watched
  descriptors once each. Which bytes, descriptors and batches turn up is left to the environment.
* Network byte order is modelled as big-endian byte sequences, frame data as a little-endian number. Doubles
  are `real`; how a physical value becomes the 32 bits of a float is an arbitrary function.
* A signed signal of length 0 makes the original shift by a negative amount, which has no defined result;
  decoding requires that there is none, and `Gateway.Run` refuses such a file.

Where code and comments differ, the code was followed: the VIN has 16 characters
(`src/doip/uds_handler.cpp:102-103` says 17); the session counters wrap through 0; the offers announce port
30501 while notifications go to port 30490 (`src/main.cpp:18-19`); byte order in a DBC file is read and never
used. A DBC layout declared under an id beyond 29 bits can never match a frame (`Gateway.OnlyShortIdsMatter`).
A service-discovery message of more than 256 offers carries wrong option indices
(`SdBuilder.IndexIsExactUpTo256`), and an unsigned signal value of 2^63 or more decodes to a negative number
(`CanDecoder.PackThenDecode`).

## Model
| member | source | states |
|---|---|---|
| DoipMessage.HeaderInverse | src/doip/doip_message.hpp:42-60 | a byte string starts with the encoding of a header exactly when parsing reads that header from it |
| DoipMessage.Parse | src/doip/doip_message.hpp:42-50 | fewer than eight bytes are refused and leave the output as it was; otherwise the header is that of the first eight bytes |
| DoipMessage.Serialize | src/doip/doip_message.hpp:53-60 | the first eight bytes become the header, the rest of the buffer is kept |
| DoipMessage.MakeDoipMessage | src/doip/doip_message.cpp:3-19 | a fresh buffer holds the header with the payload length cut to 32 bits, then the payload |
| DoipFraming.FramesSpellStream | src/doip/doip_server.cpp:85-102 | frames and rest together spell the received stream: no byte is lost, doubled or moved |
| DoipFraming.FramesWellFormed | src/doip/doip_server.cpp:89-95 | every dispatched frame has the payload its length field announces |
| DoipFraming.RestIncomplete | src/doip/doip_server.cpp:85-90 | behind the loop no complete frame is left at the front |
| DoipFraming.FramingIsUnique | src/doip/doip_server.cpp:85-102 | the framing is the only reading of a stream as well-formed frames and an incomplete rest |
| DoipFraming.FramingResumes | src/doip/doip_server.cpp:85-102 | framing a stream equals framing a prefix, keeping its rest, and going on: what makes reassembly independent of where reads cut |
| DoipFraming.AbsorbedWhole | src/doip/doip_server.cpp:72-90 | a stream is taken whole if and only if its complete frames fit 4096 bytes and so does its rest |
| DoipFraming.AbsorbedPrefix | src/doip/doip_server.cpp:72-90 | what is taken of any stream; if it is not all, the buffer is full behind a frame that can never be completed |
| DoipFraming.AbsorbedIsMaximal | src/doip/doip_server.cpp:72-90 | no delivery gets past the absorbed prefix, and a full buffer means all of it was delivered |
| DoipFraming.TakingKeepsFit | src/doip/doip_server.cpp:72-83 | a read into the free space keeps all frames and the rest within the buffer |
| DoipFraming.MessagesDelimitThemselves | src/doip/doip_message.cpp:3-19 | any list of built messages, sent back to back, is recovered with types and payloads, nothing left over; a 4096-byte buffer takes all of it exactly when each message fits |
| Uds.AnswerShape | src/doip/uds_handler.cpp:12-152 | a served request is answered with service id plus 0x40 and an echo of its first parameter, any other with 0x7F, its service id and the code that says why; which requests are served is said without the dispatch |
| Uds.ReportIsReadBack | src/doip/uds_handler.cpp:70-79 | the DTC records decode to all stored codes cut to 24 bits with their status, in order |
| Uds.GatewayReports | src/doip/uds_handler.cpp:5-10 | the literal bytes of the report of the three stored codes |
| Uds.ReportCount | src/doip/uds_handler.cpp:49-82 | the report is its fixed head and the records; its count byte is right exactly when fewer than 256 DTCs are stored |
| Uds.IdentifiersAnswer | src/doip/uds_handler.cpp:84-129 | the three identifiers answer with the documented texts, after an echo of the identifier |
| Uds.AnswerSize | src/doip/uds_handler.cpp:12-152 | no answer is longer than the fixed texts or a report of all DTCs |
| Uds.UdsHandler.constructor | src/doip/uds_handler.cpp:5-10 | the three stored DTCs |
| Uds.UdsHandler.Handle | src/doip/uds_handler.cpp:12-34 | computes the answer whose shape is proved |
| Uds.UdsHandler.HandleReadDtc | src/doip/uds_handler.cpp:49-82 | the loop over the DTCs builds the report that is proved to read back |
| Uds.UdsHandler.HandleReadDataById | src/doip/uds_handler.cpp:84-129 | the identifier answers |
| DoipSession.RepliesGrow | src/doip/doip_server.cpp:105-211 | more received bytes never change what was sent before, and never end an activation |
| DoipSession.ActivationIsHistory | src/doip/doip_server.cpp:140-144 | a connection is activated exactly when an activation request of two payload bytes or more came, and remembers the tester of the last one |
| DoipSession.ServeIsHistory | src/doip/doip_server.cpp:105-211 | over a whole run every frame is answered in order and only by what the frames before it allow |
| DoipSession.DiagnosticsAreAnsweredOnce | src/doip/doip_server.cpp:163-211 | the ACKs and the responses each number exactly the diagnostic requests of four payload bytes or more that follow an activation |
| DoipSession.NoDiagnosisBeforeActivation | src/doip/doip_server.cpp:167-172 | an ACK or response is sent if and only if some diagnostic request follows an activation |
| DoipSession.DiagnosticExchange | src/doip/doip_server.cpp:174-210 | one ACK to the same address pair, then one response with the addresses swapped and the UDS answer behind them |
| DoipSession.OtherExchanges | src/doip/doip_server.cpp:114-161 | activation confirmed to its sender with code 0x10, alive check answered with the own address, silence for every other request, payload type and length; payload types, codes and addresses as the literal numbers |
| DoipSession.TesterReadsReplies | src/doip/doip_server.cpp:192-210 | a tester framing the reply stream through the same buffer recovers exactly the messages sent |
| DoipTrace.ReadServed | src/doip/doip_server.cpp:66-103 | a read keeps to the law of traces and leaves nothing owed on any connection |
| DoipTrace.AfterReadCurrent | src/doip/doip_server.cpp:66-103 | a read touches its own connection and no other |
| DoipTrace.AcceptServed | src/doip/doip_server.cpp:55-58 | an accepted descriptor starts a connection with nothing received and nothing owed |
| DoipTrace.ServedThroughout | src/doip/doip_server.cpp:39-103 | the law holds at every moment of a run |
| DoipTrace.ConnectionBounds | src/doip/doip_server.cpp:72-102 | at every moment the buffer has not overflowed and what was sent is a prefix of what the received bytes call for |
| DoipTrace.DeliveryDependsOnStreamOnly | src/doip/doip_server.cpp:39-103 | however a stream is cut into reads and whatever other connections do, a connection ends with the absorbed prefix received and exactly its replies sent; it takes the whole stream if and only if frames and rest fit |
| DoipTrace.RoomUnlessOversized | src/doip/doip_server.cpp:72-102 | the buffer is full only behind a frame that exceeds it |
| DoipTrace.HangsUpExactly | src/doip/doip_server.cpp:76-81 | input makes the server hang up exactly when the buffer is full behind an oversized frame, the read fails, or nothing is left to read |
| DoipTrace.DiagnosisNeedsActivation | src/doip/doip_server.cpp:167-172 | in any run, an ACK or response on the wire has a diagnostic request behind an activation before it on the same connection |
| DoipTrace.InputQuiet | src/doip/doip_server.cpp:66-103 | handling input on one descriptor does nothing with connections accepted meanwhile |
| DoipServer.MoveDown | src/doip/doip_server.cpp:98-101 | the bytes behind the frame move to the front |
| DoipServer.DoipConnection.constructor | src/doip/doip_server.hpp:20-26 | an empty 4096-byte buffer and a session not activated |
| DoipServer.DoipServer.constructor | src/doip/doip_server.hpp:36-41 | no connections, and every promise holds |
| DoipServer.DoipServer.SendToClient | src/doip/doip_server.cpp:213-219 | one message handed to the socket |
| DoipServer.DoipServer.HandleRoutingActivation | src/doip/doip_server.cpp:136-161 | short requests change nothing; others set tester and activation and are confirmed |
| DoipServer.DoipServer.HandleDiagnosticMessage | src/doip/doip_server.cpp:163-211 | ACK and response, or nothing when not activated or too short |
| DoipServer.DoipServer.HandleDoipMessage | src/doip/doip_server.cpp:105-134 | session and replies after one frame of any type |
| DoipServer.DoipServer.DispatchHead | src/doip/doip_server.cpp:86-101 | one turn of the loop: the head frame is dispatched and the rest moved down |
| DoipServer.DoipServer.Reassemble | src/doip/doip_server.cpp:85-102 | the loop leaves the rest of the buffer, the session after all its frames, and their replies in order |
| DoipServer.DoipServer.Absorb | src/doip/doip_server.cpp:83-102 | the connection stays explained by its whole received stream |
| DoipServer.DoipServer.AbsorbRead | src/doip/doip_server.cpp:83-102 | so does the whole table, and nothing is owed |
| DoipServer.DoipServer.DropFromTable | src/doip/doip_server.cpp:76-81 | closing removes exactly that connection |
| DoipServer.DoipServer.OnClientData | src/doip/doip_server.cpp:66-103 | every promise is kept; a reader without connection does nothing; otherwise the operations are exactly one read with its replies, or one close |
| DoipServer.DoipServer.RegisterWithLoop | src/doip/doip_server.cpp:39-40 | the listening socket is watched under its own reader |
| DoipServer.DoipServer.Admit | src/doip/doip_server.cpp:55-62 | an accepted descriptor gets a table entry and its own reader, and watching it never fails |
| DoipServer.DoipServer.OnNewConnection | src/doip/doip_server.cpp:40-63 | a failed accept changes nothing; a reused descriptor replaces its stale reader; nothing is thrown |
| DoipServer.DoipServer.HandleReady | src/event/event_loop.hpp:46-50 | one event: an accept, the input of one live connection, or nothing |
| EventLoop.EventLoop.AddReader | src/event/event_loop.hpp:21-29 | the reader is stored first; the kernel refuses a descriptor watched already, and then it throws |
| EventLoop.EventLoop.Remove | src/event/event_loop.hpp:31-34 | reader and interest are gone |
| DoipRun.DispatchBatch | src/event/event_loop.hpp:46-50 | what each event of the batch calls for is done, one after another, and nothing else; no reader throws, and nothing in a batch reaches a connection accepted in that batch |
| DoipRun.Run | src/event/event_loop.hpp:36-52 | over any schedule of wakeups, the events of all batches before a stop are handled in order, and every promise of the server holds at the end |
| DoipRun.RunFromStart | src/main.cpp:143-155 | from a fresh start, under any schedule, the connections are those that some event accepted and none closed since; each has received what its own events since then offered, as far as that is absorbed, and been sent exactly the replies to it |
| DoipSchedule.EventSeenFrom | src/event/event_loop.hpp:46-50 | one event changes one connection: an accept opens it, its own input adds a read and its replies or closes it, every other event leaves it alone |
| DoipSchedule.RunStep | src/event/event_loop.hpp:36-52 | each batch before a stop continues where the one before it ended |
| DoipSchedule.NothingBehindStop | src/event/event_loop.hpp:39-54 | events behind a stop are not handled |
| DoipSchedule.BatchIsQuiet | src/event/event_loop.hpp:46-50 | nothing in a batch reaches a connection accepted in that batch, also when its descriptor is reused |
| DoipSchedule.OwnEventsOnly | src/doip/doip_server.cpp:66-103 | what a connection receives depends on no event on another descriptor |
| DoipSchedule.ConnectionFollowsItsEvents | src/doip/doip_server.cpp:66-103 | while it is open, a connection has received what its events offered, as far as 4096 bytes have room, and been sent the replies |
| DoipSchedule.ConnectionWasOpened | src/doip/doip_server.cpp:55-62 | every connection goes back to one event that accepted it, and none behind that closed it |
| DoipSchedule.RunIsExplained | src/doip/doip_server.cpp:39-103 | who is connected after a run, and what each has received and been sent, without the trace |
| DoipSchedule.FittingStreamIsTaken | src/doip/doip_server.cpp:72-90 | a peer whose stream fits is never hung up on under any schedule: what is received is a prefix of its stream, and every input takes at least one byte more |
| Sessions.SessionClosedForm | src/someip/someip_publisher.hpp:38 | the k-th id is (1 + k) mod 2^16: the counter wraps through 0 |
| Sessions.SameSession | src/someip/someip_publisher.hpp:38 | two messages share an id exactly when a multiple of 65536 lies between them |
| SdMessage.EntryRoundTrip | src/someip/someip_sd.hpp:31-48 | sixteen bytes carry the entry, its time to live cut to 24 bits and its option count to four |
| SdMessage.OptionRoundTrip | src/someip/someip_sd.hpp:58-69 | twelve bytes carry the option, with length field 9 |
| SdMessage.MessageRoundTrip | src/someip/someip_sd.cpp:42-96 | a strict receiver that checks every length field and fixed byte gets back session, entries and options |
| SdMessage.EntryOfEncoding | src/someip/someip_sd.cpp:78-82 | the entries stand one every 16 bytes behind the head, however the datagram is cut |
| SdBuilder.SomeIpSdMessage.AddOfferService | src/someip/someip_sd.cpp:4-26 | entry and endpoint option are appended as a pair, and stay the pair of this request |
| SdBuilder.SomeIpSdMessage.AddSubscribeAck | src/someip/someip_sd.cpp:28-40 | one entry without options is appended |
| SdBuilder.SomeIpSdMessage.Serialize | src/someip/someip_sd.cpp:42-96 | writes exactly the allocated bytes: the encoding that is proved to read back |
| SdBuilder.WriteEntry | src/someip/someip_sd.hpp:31-48 | the sixteen bytes behind what was written before |
| SdBuilder.WriteOption | src/someip/someip_sd.hpp:58-69 | the twelve bytes behind what was written before |
| SdBuilder.EntryAndOption | src/someip/someip_sd.cpp:4-40 | each offer's endpoint stands at the position that counts the offers before it, and the entry carries that position cut to eight bits; all fields of entry and option are spelled out, for offers and acknowledgements |
| SdBuilder.IndexIsExactUpTo256 | src/someip/someip_sd.cpp:16 | every offer points at its own endpoint if and only if there are at most 256 offers |
| SdBuilder.ReceiverFindsEndpoint | src/someip/someip_sd.cpp:4-96 | a receiver that parses the bytes and follows an entry's index finds that service's own endpoint: IPv4, UDP, its address and its port |
| SdService.WalkerSeesEntries | src/someip/someip_sd_service.cpp:101-146 | on a message the gateway built, cut anywhere, the walker sees its entries in order and no option byte; uncut, all of them |
| SdService.WalkGuard | src/someip/someip_sd_service.cpp:115-116 | the loop guard holds exactly while one of the first min(entries_len, len-24)/16 entries is left |
| SdService.OwnMessagesAskNothing | src/someip/someip_sd_service.cpp:61-162 | no message the gateway builds asks for a subscription when it is heard back |
| SdService.AckSaysSo | src/someip/someip_sd_service.cpp:149-155 | an acknowledgement, read from its bytes, names its subscriber, service, eventgroup and session |
| SdService.AckAccepts | src/someip/someip_sd_service.cpp:149-162 | a strict receiver finds one entry in it, which accepts: type 0x07, time to live 3, the service and eventgroup asked for, no option |
| SdService.OfferLists | src/someip/someip_sd_service.cpp:61-82 | a strict receiver of an announcement finds every service in order, each with its own id, address and port, under 224.224.224.245:30490 |
| SdService.SubscriptionsInBytes | src/someip/someip_sd_service.cpp:101-146 | the subscriptions of any datagram, said of its bytes: one for each position 24 + 16 i with byte 0x06 within both lengths, in order, with the numbers at offsets 4 and 14 |
| SdService.HeardInBytes | src/someip/someip_sd_service.cpp:84-95 | the same for one read of at most 1500 bytes |
| SdService.JoinedInBytes | src/someip/someip_sd_service.cpp:84-146 | over a run, the subscribers are those that each datagram brings, in order |
| SdService.AckAt | src/someip/someip_sd_service.cpp:140 | the i-th new subscriber is acknowledged by the i-th new datagram |
| SdService.SomeIpSdService.OfferService | src/someip/someip_sd_service.cpp:47-59 | one more service to offer |
| SdService.SomeIpSdService.SendOffers | src/someip/someip_sd_service.cpp:61-82 | nothing without services; otherwise one numbered multicast datagram, in which a receiver finds each of them |
| SdService.SomeIpSdService.SendSubscribeAck | src/someip/someip_sd_service.cpp:149-162 | one numbered acknowledgement to the subscriber |
| SdService.SomeIpSdService.Subscribe | src/someip/someip_sd_service.cpp:134-140 | subscriber list and acknowledgements grow together |
| SdService.SomeIpSdService.HandleSdMessage | src/someip/someip_sd_service.cpp:97-147 | on any bytes: registers exactly what the type-0x06 entries looked at ask for in their bytes, in order, and acknowledges each once |
| SdService.SomeIpSdService.OnReadable | src/someip/someip_sd_service.cpp:84-95 | the same for what fits 1500 bytes; a failed read changes nothing |
| SdService.HearOwnMessage | src/someip/someip_sd_service.cpp:84-147 | hearing any of its own messages changes neither subscribers nor session, and sends nothing |
| SdService.RunService | src/someip/someip_sd_service.cpp:43-162 | over any run the subscribers are exactly the subscriptions received, in order; the k-th datagram carries the k-th session id; the acknowledgements read from the wire are exactly the subscribers, and the rest are as many as there were announcements with a service to offer |
| CanBits.FieldIsDivMod | src/can/signal_decoder.cpp:41-61 | the bit field in closed form: shift and mask |
| CanBits.BitOfBytes | src/can/signal_decoder.cpp:50-56 | bit p of the frame is bit p mod 8 of byte p / 8 |
| CanBits.PutGet | tools/can_simulator.cpp:12-15 | what is written to a field is read from it |
| CanBits.PutOther | tools/can_simulator.cpp:12-15 | and disjoint fields do not change |
| CanDecoder.ExtractBits | src/can/signal_decoder.cpp:41-61 | for every 8-bit start and length the result is (LE64(data) / 2^start) mod 2^length; no counter wraps |
| CanDecoder.SignExtend | src/can/signal_decoder.cpp:15-25 | fields of fewer than 64 bits become their two's-complement value, within its range |
| CanDecoder.OrOnesValue | src/can/signal_decoder.cpp:22-23 | or-ing ones above the field, in arithmetic |
| CanDecoder.ClampKeepsLimits | src/can/signal_decoder.cpp:27-33 | the value lies within the limits exactly when they are in order, passes unchanged exactly when it lay within, and beyond a limit becomes that limit |
| CanDecoder.DecodeSignal | src/can/signal_decoder.cpp:11-36 | one signal, field by field: name, unit, and the scaled field clamped to the limit it exceeds |
| CanDecoder.Decode | src/can/signal_decoder.cpp:5-39 | one decoded signal for each signal of the message, in order |
| CanDecoder.PackThenDecode | src/can/signal_decoder.cpp:11-25 | a packed value decodes to itself if and only if it is below 2^63 |
| CanDecoder.PackLeavesOthers | src/can/signal_decoder.cpp:11-25 | packing one signal leaves the value of every disjoint one |
| CanDecoder.LayoutRoundTrip | src/can/signal_decoder.cpp:11-61 | any values packed into any layout of disjoint signals all decode again |
| CanDecoder.DecodePacked | src/can/signal_decoder.cpp:5-39 | end to end on the bytes of a packed frame: every value scaled and clamped, in order |
| CanDecoder.TwoBytesAreAField | tools/can_simulator.cpp:12-15 | storing a 16-bit value low byte first is packing a 16-bit field |
| DbcText.ReadsSpaced | src/can/dbc_parser.cpp:94-98 | words written with spaces between them are read as they are |
| DbcText.PrintedNat | src/can/dbc_parser.cpp:115-119 | every number has digits that write it |
| DbcText.StoiOfDigits | src/can/dbc_parser.cpp:115-120 | digits are read as their number, and refused from 2^31 on |
| DbcText.WrittenDecimal | src/can/dbc_parser.cpp:140-146 | a written decimal is read as the number it writes |
| DbcText.WrittenExponent | src/can/dbc_parser.cpp:140-146 | a written exponent scales its decimal by a power of ten |
| DbcLines.BitInfoRoundTrip | src/can/dbc_parser.cpp:104-128 | start, length, byte order and sign of a written bit description are recovered |
| DbcLines.PairRoundTrip | src/can/dbc_parser.cpp:130-164 | two decimals in brackets are recovered |
| DbcLines.SignalLineRoundTrip | src/can/dbc_parser.cpp:90-168 | a written signal line is read as the signal it writes |
| DbcLines.EngineTempLine | config/vehicle.dbc:11 | a line of the database is read as its literal numbers and texts |
| DbcLines.MessageLineRoundTrip | src/can/dbc_parser.cpp:67-88 | a written message line is read as the message it writes |
| DbcParser.DbcParser.Parse | src/can/dbc_parser.cpp:6-59 | the table is the fold over what each line means; a file that cannot be opened changes nothing |
| DbcParser.ReturnIsIgnored | src/can/dbc_parser.cpp:18-20 | one carriage return at the end of a line makes no difference |
| DbcParser.BlankLines | src/can/dbc_parser.cpp:22-26 | a line is blank exactly when it holds nothing but spaces, tabs and line ends |
| DbcParser.IndentIsIgnored | src/can/dbc_parser.cpp:28-31 | any mix of spaces and tabs in front of a line makes no difference |
| DbcParser.FileMeaning | src/can/dbc_parser.cpp:13-50 | every id stands for its last header, with the signals between that header and the next blank line or header; malformed lines and stray signals change nothing |
| DbcParser.FileRoundTrip | src/can/dbc_parser.cpp:6-59 | writing messages as a DBC file and parsing it yields exactly these messages |
| SomeIpMessage.EncodedFields | src/someip/someip_message.cpp:47-76 | every field at its byte offset |
| SomeIpMessage.MessageRoundTrip | src/someip/someip_message.cpp:47-76 | a strict receiver recovers the message, and the length field is right, if and only if the payload is shorter than 2^32 - 8 |
| SomeIpMessage.SerializeInto | src/someip/someip_message.cpp:47-76 | returns 0 and leaves the buffer exactly when it is too small; otherwise writes the message and nothing behind it |
| SomeIpMessage.Serialize | src/someip/someip_message.cpp:79-83 | the encoding that reads back |
| SomeIpPublisher.LastRegistrationWins | src/someip/someip_publisher.cpp:38-46 | a name is routed exactly when registered, to its last registration |
| SomeIpPublisher.NotificationSays | src/someip/someip_publisher.cpp:63-70 | every field of a notification |
| SomeIpPublisher.OnlyRoutedMatter | src/someip/someip_publisher.cpp:48-61 | one notification for each routed signal, in order, with the two ids of its route, the session id (1 + k) mod 2^16, and the float bits as its payload |
| SomeIpPublisher.NotificationsNumbered | src/someip/someip_publisher.cpp:55-57 | the k-th notification carries the k-th session id |
| SomeIpPublisher.SomeIpPublisher.RegisterSignal | src/someip/someip_publisher.cpp:38-46 | one route is set |
| SomeIpPublisher.SomeIpPublisher.SendMessage | src/someip/someip_publisher.cpp:72-86 | what goes out decodes to the message; what does not fit 1500 bytes is dropped |
| SomeIpPublisher.SomeIpPublisher.PublishFloat | src/someip/someip_publisher.cpp:63-70 | one numbered notification with the float bits of the value |
| SomeIpPublisher.SomeIpPublisher.Publish | src/someip/someip_publisher.cpp:48-61 | one notification with the ids of its route for a routed signal, nothing otherwise |
| Gateway.OnlyShortIdsMatter | src/main.cpp:102-105 | layouts under ids beyond 29 bits are never used |
| Gateway.NotificationsAskNothing | src/someip/someip_sd_service.cpp:101 | a notification heard on the discovery port is ignored |
| Gateway.Gateway.constructor | src/main.cpp:59-95 | routes registered in order, three services offered once |
| Gateway.Gateway.PublishFrame | src/main.cpp:110-115 | the signals of a frame are published behind those of the frames before it |
| Gateway.Gateway.CountFrame | src/main.cpp:121-131 | the services are offered again after every hundred known frames |
| Gateway.Gateway.OnFrame | src/main.cpp:98-140 | one frame keeps every promise of the pipeline; an unknown one changes nothing else |
| Gateway.RunEvents | src/main.cpp:98-155 | so does any sequence of frames and datagrams |
| Gateway.FlagsAreDropped | src/main.cpp:102 | the three flag bits of a frame id change nothing |
| Gateway.SignalsByFrame | src/main.cpp:104-115 | the signals of a run are those each known frame brings, in the order of frames and layouts, field by field |
| Gateway.SubscribersInBytes | src/someip/someip_sd_service.cpp:84-146 | the subscribers of a run are those that each datagram brings, said of its bytes |
| Gateway.EachStageOnceMore | src/main.cpp:107-119 | each of the four latencies of a frame goes under its own event name, behind those of the frames before |
| Gateway.Report | src/bench/benchmark.hpp:102-107 | of each event the first 10000 latencies are kept, in frame order |
| Gateway.PublishedTells | src/someip/someip_publisher.cpp:48-70 | the published bytes, decoded, tell of each routed signal field by field |
| Gateway.DatagramsAnnounce | src/main.cpp:74-80 | a datagram that is no acknowledgement offers services 0x0101, 0x0102 and 0x0103 at the local address, port 30501 |
| Gateway.Run | src/main.cpp:45-155 | whole runs: the bytes published decode, field by field, to exactly the notifications of routed signals of known frames; n known frames make 4n measurements, kept under their own events, and 1 + n/100 offers of the three services, numbered together with the one acknowledgement for each subscription received |
| OrderStatistics.SortAscending | src/bench/benchmark.hpp:68-69 | sorting orders the samples and keeps them |
| OrderStatistics.SortCounts | src/bench/benchmark.hpp:68-69 | and keeps how often each occurs |
| OrderStatistics.RankIsPercent | src/bench/benchmark.hpp:69-72 | the position is the whole part of p percent of n, and the last one exactly when p percent of n reach it |
| OrderStatistics.PercentileIsOrderStatistic | src/bench/benchmark.hpp:66-73 | the percentile is the one value with at most rank samples below and more than rank not above it |
| OrderStatistics.PercentileMonotone | src/bench/benchmark.hpp:66-77 | a higher percentage never gives a lower value |
| Benchmark.LatencyHistogram.Record | src/bench/benchmark.hpp:43-47 | the first samples are kept, every one is counted |
| Benchmark.LatencyHistogram.Minimum | src/bench/benchmark.hpp:49-52 | the least sample, 0 without samples |
| Benchmark.LatencyHistogram.Maximum | src/bench/benchmark.hpp:54-57 | the greatest sample, 0 without samples |
| Benchmark.LatencyHistogram.PercentileAt | src/bench/benchmark.hpp:66-73 | the order statistic of the stored samples, 0 without samples |
| Benchmark.LatencyHistogram.Summary | src/bench/benchmark.hpp:49-77 | min <= p50 <= p95 <= p99 <= max |
| Benchmark.LatencyHistogram.Reset | src/bench/benchmark.hpp:82-85 | empty again |
| Benchmark.CountsAddUp | src/bench/benchmark.hpp:94-126 | the counts over all events add up to the number of measurements |
| Benchmark.BenchmarkCollector.Record | src/bench/benchmark.hpp:97-100 | each measurement reaches the histogram of its own event and no other |
| Benchmark.BenchmarkCollector.Get | src/bench/benchmark.hpp:102-107 | the histogram of an event holds its first 10000 latencies and counts all; none means nothing was recorded |
| Benchmark.BenchmarkCollector.Reset | src/bench/benchmark.hpp:119-122 | all histograms and the total start over |
| Benchmark.BenchmarkCollector.TotalIsSumOfCounts | src/bench/benchmark.hpp:94-126 | the total equals the sum of all histogram counts |

## Left out
- Sockets: creating, binding, options, multicast joins, partial sends, and everything printed to the console.
- The CAN socket, the stats reporter and its tables, the configuration file reader (routes are an input), and the watchdog.
- Widths of `size_t` below 64 bits: the frame total and the counters are taken not to wrap.
- IEEE rounding in scaling, in the percentile index and in `stod`; overflow of `stod`; hexadecimal, infinite and NaN notations of numbers; the mean of a histogram.
- Allocation: the event loop's and the maps' memory behaviour, and iteration order of unordered maps (no result depends on it).
- Big-endian (Motorola) and multiplexed DBC signals, which the original does not implement.
- Service-discovery features the original does not have: expiry of subscriptions, removal of duplicates, reading options of incoming messages.
- A null payload pointer with a non-zero length in `make_doip_message`: no caller passes one.
- DoipServer.DoipServer.HandleDoipMessage: takes the payload as a copied sequence; that the original reads it in place is not captured, and no handler writes to it.
- DoipRun.Run: covers every finite run; that the loop goes on for ever is not stated.
- The programs under tools/, except that `pack_u16` is shown to be the packing of a 16-bit field.
