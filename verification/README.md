# Proofs about the libipstack TCP/IP stack

A Dafny model of five parts of the stack, and what is proved about each of them:

* **TCP data transfer** in the base configuration, with one history record and one
  receive-buffer element, from the end of the handshake to the end of the connection. Both
  endpoints are 32-bit engines; the network may lose, repeat and reorder segments.
* **picojson**, the JSON reader and writer of the build system.
* **The Internet checksum** of TCP, UDP, ICMP (big-endian words, loop fold) and of the IPv4
  header (host-order words, two folds).
* **Buffer memory**: the packet ring between the network side and a socket, the two-tier block
  allocator, and the management memory with its table of slots.
* **The list of bound UDP sockets** with the search for a free port.

`dafny verify dfyconfig.toml` checks everything.

## How it is built

Code that updates objects is written as classes, methods and loops, and every such method is
proved equal to a function on a value that describes the state before and after it
(`TcpSocketClasses.TcpSocket` and `TcpModel`, `JsonParser.Input` and `JsonGrammar`,
`Mempool.BasicMempool` and `Mempool.Pools`, `ManagementMemory.SharedMemory` and
`ManagementMemory.Management`). The laws are lemmas about those functions, mostly over whole runs.

| files | contents |
|---|---|
| `Basics.dfy`, `SerialNumbers.dfy` | octets; sequence numbers with and without wrap-around |
| `TcpModel.dfy`, `TcpSocket.dfy` | the connection engine as functions, and as classes |
| `TcpInvariant.dfy`, `TcpSteps.dfy` | what every step of an endpoint keeps, over unbounded numbers |
| `TcpRefinement.dfy`, `TcpSystem.dfy` | 32-bit steps against unbounded ones; runs of two endpoints |
| `TcpTheorems.dfy`, `TcpSendWindow.dfy` | what follows for every run; the sender's loops |
| `TcpResponses.dfy`, `TcpStates.dfy` | what is sent again, acknowledged, sent next; who answers a FIN, which state follows |
| `TcpCalls.dfy`, `TcpRecovery.dfy` | one `receive` and one `write` from call to return; how a loss is repaired |
| `JsonValue.dfy`, `JsonGrammar.dfy`, `JsonParser.dfy` | values, the language by index, the parser with push-back |
| `JsonText.dfy`, `JsonNumerals.dfy`, `JsonStrings.dfy` | white space, numerals, escapes and UTF-8, each described without the parser |
| `JsonTrees.dfy` | the accepted texts as trees of tokens; the parser accepts exactly these |
| `JsonSerializer.dfy`, `JsonRoundTrip.dfy` | the writer, and reading what was written |
| `InternetChecksum.dfy`, `IPv4Header.dfy` | the two checksums and their agreement |
| `Ringbuffer.dfy`, `Mempool.dfy`, `ManagementMemory.dfy` | buffer memory |
| `UdpDemux.dfy` | bound UDP sockets |

The TCP engine is written once, over a parameter `Arith` that selects 32-bit or unbounded
sequence numbers. The invariant is proved of the unbounded engine; `WrappedRunRefines` carries it
over to the 32-bit engine, under the usual assumption that a segment lives no longer than half a
cycle of the number space (section 3.3 of RFC 793), written out as `TcpSystem.LiveRun`.

## Findings

The proofs led to places where the code does not do what its comments, its documentation or a
standard ask for. Each has its exact condition and an input that shows it.

* `receive` in CLOSEWAIT on an empty receive buffer follows the null `head`
  (`libipstack/src/tcp/statemachine/closewait.ah:60`,
  `libipstack/src/tcp/tcp_receivebuffer/TCP_ReceiveBuffer.cpp:40`): `TcpTheorems.FaultCondition`
  says when, `TcpTheorems.FaultIsReachable` gives a run of the 32-bit engine. After that step the
  model claims nothing but stays where it is.
* `receive` never returns its -2 for the end of the stream to a caller with a buffer of at least one
  byte (`libipstack/src/tcp/TCP_Socket.cpp:559-561`): `TcpCalls.ReceiveIsExact`. Where it would, the
  null `head` of the previous entry was followed.
* `SingleMempool::free` accepts the address one past its pool and blocks that are free already
  (`libipstack/src/util/Mempool.h:54`): `Mempool.ReleaseKeepsIff` is the exact contract,
  `Mempool.PastTheEndIsHandedOut` and `Mempool.ReleaseOverflowsIff` are the two ways to break it.
* A block is lost to the management memory when it is requested while the slot table is full. No
  run loses one if and only if there is a slot for every block (`ManagementMemory.EnoughSlotsIff`).
  Without generic memory the two sizes come from different constants, and the default
  configuration has 6 slots for 8 blocks: `ManagementMemory.LostBlock`.
* A computed UDP checksum of zero is sent as zero, which receivers take for "no checksum" (RFC 768
  asks for all ones): `InternetChecksum.SentUdpIsProtectedIff`,
  `InternetChecksum.UnprotectedDatagram`.
* The iterator that `picojson::parse` returns is one beyond a number that something follows:
  `JsonParser.IteratorStandsBehindValueIff`, `JsonRoundTrip.IteratorPassesBlank`.
* The scan of `udp_get_free_port` does not end when all ports from 1024 on are taken:
  `UdpDemux.ScanEndsIff`, `UdpDemux.BindAllPorts`.
* `unbind` on an empty list of UDP sockets follows the null head
  (`libipstack/src/udp/Demux_UDP_Slice.ah:63`), which the destructor of a socket does:
  `UdpDemux.Demux.Unbind`, `UdpDemux.UnbindAgain`, `UdpDemux.UnbindUnbound`.

## Model

| member | source | states |
|---|---|---|
| SerialNumbers.TruncatedDifference | libipstack/src/tcp/TCP.h:116-120 | the signed 32-bit difference behind the four `SEQ_` tests equals the difference of the unbounded numbers if and only if these lie in one half-range |
| SerialNumbers.TruncatedEquality | libipstack/src/tcp/tcp_receivebuffer/TCP_ReceiveBuffer.cpp:58 | the equality test of `insert` decides as on unbounded numbers for all numbers less than a full cycle apart |
| TcpTheorems.StreamIsAPrefix | libipstack/src/tcp/tcp_receivebuffer/TCP_ReceiveBuffer.cpp:24-69 | in every run of two 32-bit endpoints the bytes copied out followed by the bytes still buffered are a prefix of the bytes written at the other end, and `getAckNum` minus the initial number is its length |
| TcpTheorems.OutsideWriteAllIsAccepted | libipstack/src/tcp/TCP_Socket.cpp:566-576 | in every run, unless a `write` is in progress, the peer has accepted every byte ever written; so `write` returns, and `close` sends its FIN, only then |
| TcpTheorems.CloseIsOrderly | libipstack/src/tcp/TCP_Socket.cpp:370-396 | in every run, an endpoint in FINWAIT2, TIMEWAIT or CLOSED means that the peer holds or delivered the whole stream and has taken in the FIN behind it |
| TcpTheorems.FinIsAcknowledgedLast | libipstack/src/tcp/TCP_Socket.cpp:206-214 | in every run of the 32-bit engines, a segment of the peer within its lifetime whose acknowledgement number equals `seqnum_next` after the FIN exists only when the peer has accepted every byte in order and the FIN behind them, whatever was repeated or reordered |
| TcpTheorems.NoAckBeyondFin | libipstack/src/tcp/TCP_Socket.cpp:206-214 | over unbounded numbers no segment ever emitted, however old, acknowledges more than the FIN, and one that covers the FIN implies that everything before it was accepted |
| TcpTheorems.UnackedIsTheRecord | libipstack/src/tcp/TCP_Socket.cpp:118-150 | in every run the unacknowledged range is empty or is exactly the one timed record: the FIN, or the bytes of the stream right before those still pending; removal by first sequence number therefore drops nothing unacknowledged |
| TcpTheorems.AcknowledgedIsBetween | libipstack/src/tcp/TCP_Socket.cpp:160-179 | in every run, going around the circle of 32-bit numbers, what the peer acknowledged lies between `seqnum_unacked` and `seqnum_next`, which are at most one 16-bit window and a FIN apart |
| TcpTheorems.WindowsAreRespected | libipstack/src/tcp/TCP_Socket.cpp:76-89 | in every run, zero-window probes included, the receive buffer stays within `maxReceiveWindow_Bytes`, the subtraction in `getReceiveWindow` does not wrap, and the send window is never negative nor above the peer's limit |
| TcpTheorems.FaultCondition | libipstack/src/tcp/statemachine/closewait.ah:52-63 | a step dereferences the null `head` if and only if it is a pass without a segment while a `receive` waits in CLOSEWAIT and the receive buffer is empty |
| TcpTheorems.FaultIsReachable | libipstack/src/tcp/statemachine/closewait.ah:52-63 | a run of four steps of the 32-bit engines, every segment within its lifetime, that reaches that dereference from any start whose window registers are current |
| TcpSystem.StepKeeps | libipstack/src/tcp/TCP_Socket.cpp:58-74 | every application call, every delivery of any segment ever sent and every pass without input keeps the two-endpoint invariant |
| TcpSystem.RunKeeps | libipstack/src/tcp/TCP_Socket.cpp:507-517 | the invariant holds after every run |
| TcpSystem.WrappedRunRefines | libipstack/src/tcp/TCP.h:116-120 | every run of the 32-bit engine whose deliveries are within the segment lifetime is the truncation of the same run over unbounded numbers |
| TcpSystem.StepCommutes | libipstack/src/tcp/TCP_Socket.cpp:58-74 | the same for each single step: every test and every assignment of the 32-bit engine agrees with the unbounded one |
| TcpSystem.RunIsSymmetric | libipstack/src/tcp/TCP_Socket.cpp:58-74 | exchanging the endpoints of a run exchanges its outcome, so all results hold in both directions |
| TcpInvariant.HandleAckKeeps | libipstack/src/tcp/TCP_Socket.cpp:160-179 | reading the acknowledgement number of any segment of the peer, old or new, keeps the invariant |
| TcpInvariant.HandleFinKeeps | libipstack/src/tcp/TCP_Socket.h:186-191 | a FIN is remembered at the number that follows all data of the peer, in order |
| TcpInvariant.HandleDataKeeps | libipstack/src/tcp/TCP_Socket.cpp:181-190 | accepting or refusing the payload of any segment of the peer keeps the accepted bytes a prefix of the peer's stream |
| TcpInvariant.UpdateHistoryKeeps | libipstack/src/tcp/TCP_Socket.cpp:118-150 | cleaning up and retransmitting keeps the invariant |
| TcpInvariant.RequestBufferKeeps | libipstack/src/tcp/TCP_Socket.cpp:585-595 | a buffer is handed out only with an empty history, so `history.add` never meets a full one |
| TcpSteps.SendLoopKeeps | libipstack/src/tcp/TCP_Socket.cpp:426-436 | the sending loop keeps the invariant, whatever the answers of interface and memory |
| TcpSteps.InputKeeps | libipstack/src/tcp/TCP_Socket.cpp:58-74 | so does every state handler with a segment |
| TcpSteps.InputQuietKeeps | libipstack/src/tcp/statemachine/established.ah:71-112 | so does every state handler without a segment |
| TcpSteps.BeginCloseKeeps | libipstack/src/tcp/TCP_Socket.cpp:370-396 | so does `close` |
| TcpRefinement.UpdateSendWindowCommutes | libipstack/src/tcp/TCP_Socket.cpp:91-108 | the two age tests of a window update decide in 32 bits as on unbounded numbers within the half-range |
| TcpRefinement.SendLoopCommutes | libipstack/src/tcp/TCP_Socket.cpp:426-436 | the whole sending loop commutes with truncation |
| TcpRefinement.InputCommutes | libipstack/src/tcp/TCP_Socket.cpp:58-74 | every state handler with a segment commutes with truncation |
| TcpRefinement.InputQuietCommutes | libipstack/src/tcp/TCP_Socket.cpp:58-74 | every state handler without a segment commutes with truncation |
| TcpSendWindow.WindowOfNewest | libipstack/src/tcp/TCP_Socket.cpp:91-108 | after any series of segments `lwseq`, `lwack` are the lexicographic maximum seen and `sendWindow` is the window of the last segment attaining it |
| TcpSendWindow.OrderOfArrivalIsIrrelevant | libipstack/src/tcp/TCP_Socket.cpp:91-108 | two arrival orders of the same segments leave the same `lwseq` and `lwack` |
| TcpSendWindow.WrappedWindowOfNewest | libipstack/src/tcp/TCP_Socket.cpp:91-108 | inside one half-range the 32-bit registers follow the unbounded ones over the whole series |
| TcpSendWindow.SendDataConverts | libipstack/src/tcp/TCP_Socket.cpp:406-472 | one `processSendData` turns a front part of the application buffer into segments: their payloads joined are that part, their numbers are consecutive, and `seqnum_next` and the buffer advance by as much; at most one byte goes out against a closed window |
| TcpSendWindow.OneSegmentAtATime | libipstack/src/tcp/TCP_Socket.cpp:426-436 | with one history record a call emits at most one segment |
| TcpTheorems.StepOfRun | libipstack/src/tcp/TCP_Socket.cpp:58-74 | at the end of every live run the 32-bit engine takes any step as the unbounded one does, so the responses below hold of it too |
| TcpResponses.QuietResends | libipstack/src/tcp/TCP_Socket.cpp:118-158 | in 32 bits and over unbounded numbers, in every open state: while the timed record is unacknowledged, a pass without input puts exactly that segment on the wire if it timed out, and nothing if not |
| TcpResponses.LostIsSentAgain | libipstack/src/tcp/TCP_Socket.cpp:143-158 | whenever a call waits with something unacknowledged, a pass with a timeout sends one segment that begins at `seqnum_unacked` and ends at `seqnum_next`, and is the FIN or the bytes written in that range; a pass without one sends nothing |
| TcpResponses.TimedOutIsSentAgain | libipstack/src/tcp/TCP_Socket.cpp:143-158 | the same at the end of every live run of the 32-bit engines |
| TcpRecovery.LossIsRepaired | libipstack/src/tcp/TCP_Socket.cpp:118-190 | a lost data segment, or its lost acknowledgement, is made up for by a timeout, the delivery of what is sent then, a pass of the reader and the delivery of its answer: all that was sent is accepted and acknowledged |
| TcpResponses.ClearIsEmptied | libipstack/src/tcp/TCP_Socket.cpp:585-595 | the record is removed if and only if everything sent is acknowledged and the interface has finished with a pure acknowledgement; a buffer is had if and only if there is memory besides |
| TcpResponses.AckIsTaken | libipstack/src/tcp/TCP_Socket.cpp:160-179 | for any segment of the peer and in every state `seqnum_unacked` becomes the maximum of itself and the number acknowledged |
| TcpResponses.DataIsTaken | libipstack/src/tcp/TCP_Socket.cpp:181-190 | a data segment at the expected number is stored whole, with its push flag, when the element is free; any other leaves the buffer as it was; both are acknowledged later |
| TcpResponses.AckIsOwedIff | libipstack/src/tcp/statemachine/established.ah:42-61 | an acknowledgement becomes due exactly for a data segment, or in ESTABLISHED with a full receive buffer |
| TcpResponses.PendingAckIsSent | libipstack/src/tcp/statemachine/established.ah:75-99 | the next pass that can have a buffer begins with that acknowledgement: the number behind the accepted bytes, and the window left after that pass has read; the reader's passes send nothing else |
| TcpResponses.PollAnswers | libipstack/src/tcp/TCP_Socket.cpp:518-536 | so does `poll` |
| TcpResponses.NothingDueNothingSent | libipstack/src/tcp/statemachine/established.ah:71-112 | with nothing unacknowledged, owed or pending, a pass sends nothing, in any state |
| TcpResponses.PendingDataIsSent | libipstack/src/tcp/TCP_Socket.cpp:406-472 | with bytes pending and everything before them acknowledged, a pass of `write` sends one segment: as many bytes as window, pending data and segment size allow, one against a closed window, pushed exactly when they are the last, with the current acknowledgement and window |
| TcpResponses.WriteReturnsIff | libipstack/src/tcp/statemachine/established.ah:100-110 | `write` returns with a pass if and only if nothing is pending, everything is acknowledged and no acknowledgement of its own goes out |
| TcpCalls.PassReads | libipstack/src/tcp/statemachine/established.ah:75-99 | a pass hands out the smaller of what is buffered and what is wanted, counts it and moves on in the application's buffer; in ESTABLISHED the call returns exactly when it filled the buffer or read a pushed segment, in CLOSEWAIT always |
| TcpCalls.StepReads | libipstack/src/tcp/statemachine/closewait.ah:52-63 | during a `receive` every step, in either arithmetic, goes on with the call or returns from it, and which of the two is decided by the buffered bytes, the push flag and the state |
| TcpCalls.ReceiveIsExact | libipstack/src/tcp/TCP_Socket.cpp:543-565 | in every run, from the start of a `receive` to its return, the length it counts is the growth of what was delivered and at most the buffer; until then the rest of the buffer is still wanted; a buffer that is not empty gets at least one byte |
| TcpCalls.ReceiveInRunIsExact | libipstack/src/tcp/TCP_Socket.cpp:543-565 | the same for a `receive` that starts at the end of any live run of the 32-bit engines |
| TcpCalls.WriteIsExact | libipstack/src/tcp/TCP_Socket.cpp:566-576 | from the start of a `write` to its return, in every live run of the 32-bit engines: the stream grows by exactly the bytes given, and after the return the peer has accepted all of them and everything before, in order |
| TcpStates.SegmentMoves | libipstack/src/tcp/statemachine/finwait1.ah:29-64 | for every segment of the peer and every state: the state that follows, and the acknowledgement of the peer's FIN, sent exactly when the segment calls for it and a buffer can be had |
| TcpStates.SynIsAnswered | libipstack/src/tcp/TCP_Socket.cpp:217-244 | a SYN in a synchronized state is answered by the current acknowledgement and changes neither the state nor a register |
| TcpStates.PassMoves | libipstack/src/tcp/statemachine/timewait.ah:25-60 | for every state, the state that follows a pass without input; a connection that ends leaves no call, no pending byte and no record behind |
| TcpStates.CloseSendsFin | libipstack/src/tcp/TCP_Socket.cpp:370-396 | `close` sends its FIN, which takes one number, and moves to FINWAIT1 or LASTACK if and only if everything before is acknowledged and a buffer can be had; otherwise only the record may go |
| TcpStates.ClosedIsSilent | libipstack/src/tcp/statemachine/closed.ah:25-40 | a closed socket sends nothing and stays closed, whatever arrives or is called |
| TcpSocketClasses.ReceiveBuffer.CopyData | libipstack/src/tcp/tcp_receivebuffer/TCP_ReceiveBuffer.cpp:37-53 | hands out the first bytes, moves the read position and empties the element exactly when all was read |
| TcpSocketClasses.ReceiveBuffer.Insert | libipstack/src/tcp/tcp_receivebuffer/TCP_ReceiveBuffer.cpp:57-69 | takes a segment if and only if it is the next one and the element is free |
| TcpSocketClasses.ReceiveBuffer.GetAckNum | libipstack/src/tcp/tcp_receivebuffer/TCP_ReceiveBuffer.cpp:24-31 | the 32-bit number after the buffered bytes |
| TcpSocketClasses.RecvElement.Increment | libipstack/src/tcp/tcp_receivebuffer/TCP_RecvElement.h:59-63 | moves the element on by some bytes without changing the rest |
| TcpSocketClasses.History.Add | libipstack/src/tcp/tcp_history/TCP_History.cpp:23-30 | records a segment; needs an empty history |
| TcpSocketClasses.History.GetNextTimeout | libipstack/src/tcp/tcp_history/TCP_History.cpp:36-43 | the time left, 0 for an empty history, an untimed record or a passed timeout |
| TcpSocketClasses.TcpRecord.IsTimedOut | libipstack/src/tcp/tcp_history/TCP_Record.h:53-59 | only a timed record times out |
| TcpSocketClasses.TcpSocket.HandleAck | libipstack/src/tcp/TCP_Socket.cpp:160-179 | the method equals the 32-bit model function the runs are made of |
| TcpSocketClasses.TcpSocket.UpdateHistory | libipstack/src/tcp/TCP_Socket.cpp:118-150 | the same, for the loop over the history |
| TcpSocketClasses.TcpSocket.RequestSendBuffer | libipstack/src/tcp/TCP_Socket.cpp:585-595 | the same, and success means an empty history |
| TcpSocketClasses.TcpSocket.ProcessSendData | libipstack/src/tcp/TCP_Socket.cpp:406-437 | the same, for the probe and the sending loop, which ends for every positive `mss`; a closed window is probed exactly when there is no record, an untimed one, or the clock has reached its timeout |
| TcpSocketClasses.TcpSocket.Established | libipstack/src/tcp/statemachine/established.ah:30-70 | the same, for the handler of a segment in ESTABLISHED |
| TcpSocketClasses.TcpSocket.EstablishedQuiet | libipstack/src/tcp/statemachine/established.ah:71-112 | the same, for the pass without a segment; the timer answers are functions of the clock and of the record as the call found it |
| TcpSocketClasses.TcpSocket.FinWait1 | libipstack/src/tcp/statemachine/finwait1.ah:29-64 | the same, including the simultaneous close |
| TcpSocketClasses.TcpSocket.Input | libipstack/src/tcp/TCP_Socket.cpp:58-74 | the same, for the state switch with a segment |
| TcpSocketClasses.TcpSocket.InputQuiet | libipstack/src/tcp/TCP_Socket.cpp:58-74 | the same, for the state switch without one, timer answers included |
| TcpSocketClasses.TcpSocket.BeginClose | libipstack/src/tcp/TCP_Socket.cpp:370-396 | the same, for `close` up to its receive loop |
| JsonTrees.FittingIsParsed | libipstack/buildsystem/determine_relevant_files/picojson.h:521-611 | every text made of JSON tokens in the order of the grammar, with any run of blanks, tabs, line feeds and carriage returns before each, is parsed to the tree it spells, up to its last character |
| JsonTrees.ParsedFits | libipstack/buildsystem/determine_relevant_files/picojson.h:521-611 | conversely, whatever the parser accepts is such a text, so a missing bracket, comma, colon or quote is rejected |
| JsonTrees.AcceptedIff | libipstack/buildsystem/determine_relevant_files/picojson.h:576-611 | the two together: value and end position are those of a tree that fits the text |
| JsonText.SpaceIsSkipped | libipstack/buildsystem/determine_relevant_files/picojson.h:391-399 | any run of the four octets of white space is skipped |
| JsonText.SkippedIsSpace | libipstack/buildsystem/determine_relevant_files/picojson.h:391-399 | and nothing else is |
| JsonNumerals.NumeralIsScanned | libipstack/buildsystem/determine_relevant_files/picojson.h:559-574 | every numeral of sign, digits, fraction and exponent with at least one digit is read, to its parts |
| JsonNumerals.ScannedIsNumeral | libipstack/buildsystem/determine_relevant_files/picojson.h:559-574 | conversely, what is read is such a numeral |
| JsonRoundTrip.ValueRoundTrip | libipstack/buildsystem/determine_relevant_files/picojson.h:315-352 | the text of any value tree with ordered keys and plain integers, standing anywhere in an input and followed by anything that does not continue a number, is parsed back to that value, and exactly that text is consumed |
| JsonRoundTrip.TextRoundTrip | libipstack/buildsystem/determine_relevant_files/picojson.h:576-611 | parsing a serialized value returns it and consumes all |
| JsonRoundTrip.SerializeIsInjective | libipstack/buildsystem/determine_relevant_files/picojson.h:315-352 | different values have different texts |
| JsonRoundTrip.StringRoundTrip | libipstack/buildsystem/determine_relevant_files/picojson.h:287-313 | any string of raw bytes survives escaping and reading |
| JsonRoundTrip.DecimalRoundTrip | libipstack/buildsystem/determine_relevant_files/picojson.h:262-281 | the decimal text of any integer is read back as that integer |
| JsonRoundTrip.ParsedIsWellFormed | libipstack/buildsystem/determine_relevant_files/picojson.h:664-668 | whatever the text, repeated keys included, a parsed value has ordered, distinct keys |
| JsonRoundTrip.RewritingKeepsMeaning | libipstack/buildsystem/determine_relevant_files/picojson.h:726-729 | an accepted text with printable numbers can be rewritten by the serializer and still reads as the same value |
| JsonValue.PutIsUpdate | libipstack/buildsystem/determine_relevant_files/picojson.h:664-668 | assigning a key keeps the order and changes that entry and no other |
| JsonStrings.HexDigitsAre | libipstack/buildsystem/determine_relevant_files/picojson.h:421-440 | the 22 hexadecimal digits, upper and lower case, have their values, and no other character is one |
| JsonStrings.LettersAgree | libipstack/buildsystem/determine_relevant_files/picojson.h:495-507 | the short escapes are those of section 7 of RFC 8259 |
| JsonStrings.LiteralIsAccepted | libipstack/buildsystem/determine_relevant_files/picojson.h:483-519 | a literal made of raw bytes, short escapes, `\u` escapes and surrogate pairs decodes to the raw bytes and UTF-8 encodings joined |
| JsonStrings.AcceptedIsLiteral | libipstack/buildsystem/determine_relevant_files/picojson.h:483-519 | conversely, whatever the parser accepts is such a literal with that meaning |
| JsonStrings.IllPairedIsRejected | libipstack/buildsystem/determine_relevant_files/picojson.h:447-460 | a literal with a surrogate that is not the first half of a complete pair is rejected |
| JsonStrings.Utf8RoundTrip | libipstack/buildsystem/determine_relevant_files/picojson.h:464-479 | the bytes pushed for a scalar value decode, by the table of section 3 of RFC 3629, to that value |
| JsonStrings.DecodedIsEncoded | libipstack/buildsystem/determine_relevant_files/picojson.h:464-479 | conversely, well-formed UTF-8 of a scalar value is what the parser pushes for it |
| JsonStrings.EscapeIsScalar | libipstack/buildsystem/determine_relevant_files/picojson.h:442-481 | every accepted `\u` escape or pair adds well-formed UTF-8 |
| JsonParser.Input.GetC | libipstack/buildsystem/determine_relevant_files/picojson.h:368-382 | the cursor with push-back refines an index into the text that never passes the end |
| JsonParser.Input.UngetC | libipstack/buildsystem/determine_relevant_files/picojson.h:383-388 | steps back; the original's assertion is the precondition, which all callers meet |
| JsonParser.ParseStringBody | libipstack/buildsystem/determine_relevant_files/picojson.h:483-519 | the loop reads what the grammar says at the cursor's index, and leaves the cursor where the grammar ends, on success and on failure |
| JsonParser.ParseNumberBody | libipstack/buildsystem/determine_relevant_files/picojson.h:559-574 | the same, for numbers |
| JsonParser.Parse | libipstack/buildsystem/determine_relevant_files/picojson.h:576-611 | the same, for whole values, on every input, with termination |
| JsonParser.ParseObjectTail | libipstack/buildsystem/determine_relevant_files/picojson.h:538-557 | the same, for objects |
| JsonParser.ParseText | libipstack/buildsystem/determine_relevant_files/picojson.h:708-729 | value and returned iterator, or line, quoted rest of the line and iterator of the error, exactly, for every text |
| JsonParser.LineIsQuoted | libipstack/buildsystem/determine_relevant_files/picojson.h:711-722 | the error message quotes the text up to the next line feed or the end, without control characters, and the cursor passes that line feed |
| JsonParser.IteratorStandsBehindValueIff | libipstack/buildsystem/determine_relevant_files/picojson.h:708-724 | for an accepted text the returned iterator stands where the value ends if and only if the text does not begin with a number that something follows, a condition on its characters alone |
| JsonRoundTrip.IteratorPassesBlank | libipstack/buildsystem/determine_relevant_files/picojson.h:708-724 | for every plain integer followed by a blank, "1 " among them, the iterator is one beyond the number |
| JsonRoundTrip.WrittenTight | libipstack/buildsystem/determine_relevant_files/picojson.h:315-352 | what the serializer writes is such a text without any white space |
| JsonRoundTrip.EscapeForms | libipstack/buildsystem/determine_relevant_files/picojson.h:287-313 | every byte is written in its shortest form: raw if it may be, by a short escape if there is one, else as `\u00` and two lower-case digits; slash and DEL are escaped |
| JsonSerializer.WriteString | libipstack/buildsystem/determine_relevant_files/picojson.h:287-313 | appends the escaped text the round trip is proved of |
| JsonSerializer.Write | libipstack/buildsystem/determine_relevant_files/picojson.h:315-352 | appends the text of a value, its loops included |
| InternetChecksum.AccumulateCarryBits | libipstack/src/ip/InternetChecksum.h:34-39 | the fold ends and yields the representative in 1 to 65535 of the sum modulo 65535, and 0 only for 0 |
| InternetChecksum.ComputePayload | libipstack/src/ip/InternetChecksum.h:40-57 | adds the big-endian words, an odd last octet padded, without overflow of 32 bits for every 16-bit length |
| InternetChecksum.FoldedIsOnesComplementSum | libipstack/src/ip/InternetChecksum.h:34-57 | adding in 32 bits and folding at the end equals the 16-bit sum with end-around carries of section 2 of RFC 1071 |
| InternetChecksum.CalcChecksum | libipstack/src/tcp/TCP.h:96-99 | the inverted folded 32-bit sum of pseudo header and packet |
| InternetChecksum.ChecksumIsOnesComplement | libipstack/src/tcp/TCP.h:96-99 | for every pseudo header and every length up to 65535 this is the inverse of the RFC 1071 sum |
| InternetChecksum.ValidIffBalanced | libipstack/src/tcp/TCP.h:100-102 | a packet is valid if and only if its sum is a positive multiple of 65535 |
| InternetChecksum.StoredIsValid | libipstack/src/ipv4/tcp/IPv4_TCP_Tx_Checksumming.ah:39-40 | storing the checksum computed with a cleared field makes the packet valid, for every content, every length, and every even place of the field |
| InternetChecksum.AcceptedFields | libipstack/src/tcp/TCP.h:100-102 | a packet is valid if and only if its field is the value the sender computes, or is 65535 where the sender computes 0 |
| InternetChecksum.OneWordChangeIsDetected | libipstack/src/tcp/TCP.h:100-102 | replacing one word of a valid packet leaves it valid if and only if the word is the same or both are representations of zero |
| InternetChecksum.Seal | libipstack/src/ipv4/tcp/IPv4_TCP_Tx_Checksumming.ah:39-40 | the transmit path, in place: only the field changes, and the packet is valid |
| InternetChecksum.SentUdpIsProtectedIff | libipstack/src/ipv4/udp/IPv4_UDP_Rx_Checksumming.ah:47-54 | a sent datagram is accepted, and every change of a word outside the field is detected if and only if the sum of pseudo header and datagram, the field left out, is not a positive multiple of 65535 |
| InternetChecksum.SealedIsZeroIff | libipstack/src/ipv4/udp/IPv4_UDP_Tx_Checksumming.ah:40-41 | the value that is stored is zero exactly for such a multiple |
| InternetChecksum.UnprotectedDatagram | libipstack/src/ipv4/udp/IPv4_UDP_Tx_Checksumming.ah:40-41 | a datagram between two given addresses that is sent without protection |
| InternetChecksum.PseudoHeaderV4IsWordSum | libipstack/src/ipv4/InternetChecksum.h:32-46 | the sum over addresses loaded in host order is the word sum of the pseudo header of RFC 793 |
| InternetChecksum.PseudoHeaderV6IsWordSum | libipstack/src/ipv6/InternetChecksum.h:32-61 | the same for the pseudo header of section 8.1 of RFC 8200 |
| IPv4Header.OrdersAgree | libipstack/src/ip/InternetChecksum.h:59-62 | the folded sums in the two byte orders are byte swaps of each other |
| IPv4Header.TwoFoldsSuffice | libipstack/src/ipv4/IPv4.h:70-71 | two straight-line folds, cut to 16 bits, equal the loop for every 32-bit sum |
| IPv4Header.Cksum | libipstack/src/ipv4/IPv4.h:63-74 | the loop over host-order words with 32-bit wrap-around, folded and inverted |
| IPv4Header.ImplementationsAgree | libipstack/src/ipv4/IPv4.h:63-74 | the two implementations agree, up to the byte swap, on every even number of octets up to 65535 |
| IPv4Header.ValidPacketChecksum | libipstack/src/ipv4/IPv4.h:171-173 | for every header length from 5 to 15 words, a header whose first octet is 0x40 and that length is accepted if and only if the word sum of exactly those words is a positive multiple of 65535 |
| IPv4Header.ComputeChecksum | libipstack/src/ipv4/IPv4.h:175-178 | in place: the field becomes the big-endian checksum of the header with a cleared field, no octet but 10 and 11 changes, and the words the first octet announces then sum up to a positive multiple of 65535 |
| Ringbuffer.BasicRingbuffer.Put | libipstack/src/util/Ringbuffer.h:44-51 | appends to the queue unless it holds one less than the slots, and then drops the value |
| Ringbuffer.BasicRingbuffer.Get | libipstack/src/util/Ringbuffer.h:53-62 | removes the oldest value, or answers null on an empty queue |
| Ringbuffer.BasicRingbuffer.IsFull | libipstack/src/util/Ringbuffer.h:68-70 | true exactly when `put` would drop |
| Ringbuffer.StepIsAtomic | libipstack/src/util/Ringbuffer.h:44-62 | every single memory access of producer or consumer is invisible or is one operation of an atomic queue: enqueue, refusal when full, dequeue of the oldest, empty answer when empty |
| Ringbuffer.RunIsAtomic | libipstack/src/util/Ringbuffer.h:44-62 | every interleaving of the accesses, slots written and read in two halves, is a run of that queue; no half-written slot is handed out |
| Ringbuffer.RingIsFifo | libipstack/src/util/Ringbuffer.h:44-62 | from the empty ring, what was taken out followed by what is inside is exactly what was put in, in order |
| Ringbuffer.PutUndisturbed | libipstack/src/util/Ringbuffer.h:44-51 | the four accesses of an undisturbed `put` change the contents as the class method does, and report as much |
| Ringbuffer.GetUndisturbed | libipstack/src/util/Ringbuffer.h:53-62 | the four accesses of an undisturbed `get` hand out the oldest value and leave the others, or answer empty, as the class method does |
| Mempool.AllocKeeps | libipstack/src/util/Mempool.h:43-48 | an allocation takes a block that nobody holds and fails exactly when all are held |
| Mempool.ReleaseKeeps | libipstack/src/util/Mempool.h:53-63 | freeing any address inside a held block puts that block on the list |
| Mempool.ReleaseKeepsIff | libipstack/src/util/Mempool.h:53-63 | an accepted address leaves a pool partitioned by some held set if and only if it lies inside a held block; double frees and the address past the end are the rest |
| Mempool.AcceptsIsInsideIff | libipstack/src/util/Mempool.h:54-56 | the range test agrees with the pool's bytes if and only if the address is not the one past the end |
| Mempool.PastTheEndIsHandedOut | libipstack/src/util/Mempool.h:53-63 | with a held block, freeing that address makes the next allocation return memory outside the pool |
| Mempool.ReleaseOverflowsIff | libipstack/src/util/Mempool.h:53-63 | an accepted address is written past the end of the free list if and only if no block is held |
| Mempool.HeldBlocksAreDisjoint | libipstack/src/util/Mempool.h:37-41 | held blocks share no byte, within a pool and across the two |
| Mempool.PoolsAllocKeeps | libipstack/src/util/Mempool.h:88-108 | a request succeeds if and only if it is at most `getMaxFreeBlockSize` and that is not zero; the block is large enough, was not held, and the partition is kept; the small pool serves what fits while it has a block and the big pool is untouched then, else the big one serves and the small one is untouched |
| Mempool.PoolsReleaseKeeps | libipstack/src/util/Mempool.h:110-114 | freeing any interior address returns the block to its own pool and leaves the other alone |
| Mempool.ReleaseThenAlloc | libipstack/src/util/Mempool.h:43-63 | the block freed last is handed out next, and that undoes the release |
| Mempool.ModestRunSparesBig | libipstack/src/util/Mempool.h:96-108 | over any run of small requests that never holds more than the small pool has, the big pool is untouched |
| Mempool.RunKeeps | libipstack/src/util/Mempool.h:88-114 | over any run without double frees, free-list entries and held blocks partition both pools |
| Mempool.FreshRunKeeps | libipstack/src/util/Mempool.h:37-41 | the same from the constructor |
| Mempool.RoomForHeld | libipstack/src/util/Mempool.h:53-63 | free-list entries and held blocks add up to the number of blocks, so the free-list array never overflows |
| Mempool.SingleMempool.Free | libipstack/src/util/Mempool.h:53-63 | for every address the method on the array and the head pointer equals the model's release, or reports that it wrote past the free list |
| Mempool.BasicMempool.Alloc | libipstack/src/util/Mempool.h:96-108 | the method equals the model's allocation, small pool first |
| Mempool.BasicMempool.Free | libipstack/src/util/Mempool.h:110-114 | for every address the method equals the model's release, or reports that it wrote past a free list |
| Mempool.BasicMempool.GetMaxFreeBlockSize | libipstack/src/util/Mempool.h:88-94 | the size of the largest free block, 0 if there is none |
| ManagementMemory.SweepFreesExactlyTheUnused | libipstack/src/ip_management_memory/SharedMemory.cpp:44-50 | a sweep frees exactly the named buffers that are invalid, or transmitted and sent, and everything else stays held and named |
| ManagementMemory.SweepLeavesNothing | libipstack/src/ip_management_memory/SharedMemory.cpp:23-32 | a second sweep frees nothing, so each is freed once |
| ManagementMemory.CreateKeeps | libipstack/src/ip_management_memory/SharedMemory.ah:35-54 | creating a buffer succeeds exactly when the request fits after the sweep, with a block that nobody held; the table names it if a slot was empty, and it is lost if not; tables of any size |
| ManagementMemory.RecordKeepsIff | libipstack/src/ip_management_memory/SharedMemory.cpp:13-21 | recording an allocated buffer keeps the mirror if and only if a slot was empty |
| ManagementMemory.LostBlock | libipstack/buildsystem/kconfig_output_default:326-338 | the default configuration, 6 slots and 8 blocks, loses a buffer with the seventh request |
| ManagementMemory.FullTableLoses | libipstack/src/ip_management_memory/SharedMemory.h:67 | with fewer slots than blocks, one small request more than there are slots loses a buffer, from every fresh pool |
| ManagementMemory.EnoughSlotsIff | libipstack/src/ip_management_memory/SharedMemory.h:67 | no run ever loses a buffer if and only if there are at least as many slots as blocks |
| ManagementMemory.SlotIsLeft | libipstack/src/ip_management_memory/SharedMemory.h:67 | with a slot for every block, a block that is not held means an empty slot |
| ManagementMemory.RunKeeps | libipstack/src/ip_management_memory/SharedMemory.ah:35-54 | over any run of requests, state changes, sends and sweeps, and for tables of any size, the held blocks are those in the slots, each named once, and those requested while the table was full |
| ManagementMemory.RunMirrors | libipstack/src/ip_management_memory/SharedMemory.ah:35-54 | with a slot for every block the non-empty slots are exactly the held blocks after every run |
| ManagementMemory.InFlightIsUntouched | libipstack/src/SendBuffer.h:110-125 | over any run, a transmitted buffer that the interface has not finished with is neither freed nor handed out again |
| ManagementMemory.SentOnce | libipstack/src/Socket_Send_Slice.ah:105-112 | a buffer is handed out in the writing state, `send` makes it transmitted and in flight and touches no other, and a second `send` is refused |
| ManagementMemory.SendRefusedIff | libipstack/src/Socket_Send_Slice.ah:105-108 | `send` refuses exactly a buffer that is not in the writing state, and a refusal changes nothing |
| ManagementMemory.FailedPreparation | libipstack/src/Socket_Send_Slice.ah:68-77 | a buffer whose preparation failed is not handed out, and a later sweep takes it back exactly when the table names it and the layers left it invalid, or transmitted and sent |
| ManagementMemory.SharedMemory.FreeAllUnused | libipstack/src/ip_management_memory/SharedMemory.cpp:44-50 | the loop equals the model's sweep |
| ManagementMemory.SharedMemory.Insert | libipstack/src/ip_management_memory/SharedMemory.cpp:13-21 | the loop fills the first empty slot, or reports that there is none |
| ManagementMemory.SharedMemory.GetNext | libipstack/src/ip_management_memory/SharedMemory.cpp:34-42 | the first used slot from the index on, or null with the index unchanged when there is none |
| ManagementMemory.SharedMemory.CreateInstance | libipstack/src/ip_management_memory/SharedMemory.ah:35-54 | sweep, allocation and recording equal the model's creation, with a full table too |
| UdpDemux.Demux.GetFreePort | libipstack/src/udp/Demux_UDP_Slice.ah:76-94 | the loop follows the scan turn by turn, and where it ends the answer is the first free port after the last one given out, in the order of the wrapping 16-bit counter |
| UdpDemux.NextPortIsSmallest | libipstack/src/udp/Demux_UDP_Slice.ah:76-81 | the counter moves to the next port from 1024 on, and from the last to the first |
| UdpDemux.ScanEndsIff | libipstack/src/udp/Demux_UDP_Slice.ah:76-94 | from any port the scan that restarts at the head ends if and only if a port from 1024 on is free |
| UdpDemux.ScanNeverEnds | libipstack/src/udp/Demux_UDP_Slice.ah:82-91 | without a free port it stays inside the list after any number of turns |
| UdpDemux.BindAllPorts | libipstack/src/udp/Demux_UDP_Slice.ah:36-56 | 64512 binds build a list for which the next scan does not end |
| UdpDemux.FewSocketsLeaveAPort | libipstack/src/udp/Demux_UDP_Slice.ah:76-94 | fewer than 64512 bound sockets leave such a port |
| UdpDemux.Demux.Bind | libipstack/src/udp/Demux_UDP_Slice.ah:36-56 | refuses exactly a port in use, else links the socket in front; the list stays acyclic with distinct ports |
| UdpDemux.Demux.Unbind | libipstack/src/udp/Demux_UDP_Slice.ah:58-73 | removes the socket and nothing else from the links, or changes nothing if it is not bound; it dereferences null if and only if the list is empty |
| UdpDemux.UnbindAgain | libipstack/src/udp/UDP_Receive.ah:35-39 | after construction, bind and unbind of one socket a second unbind, as in its destructor, dereferences null |
| UdpDemux.UnbindUnbound | libipstack/src/udp/UDP_Receive.ah:35-39 | so does the unbind of a socket that was never bound |

## Left out

- TCP handshake (the states LISTEN, SYNSENT, SYNRCVD and `connect`), RST handling: runs start
  right after the handshake, with handshake segments possibly still in flight.
- A connection that is used again after `abort`: the receive buffer is not emptied there, and
  nothing is claimed beyond it.
- Aspects that change the base engine: sliding window, out-of-order reassembly, congestion
  control, round-trip estimation, retransmission counting, silly-window avoidance, MSS options.
- TcpRecovery.LossIsRepaired: progress is proved of one loss, with nothing of the reader's own
  unacknowledged: with one history record no acknowledgement is sent before, so progress in both
  directions at once is not a theorem.
- TcpResponses.PendingDataIsSent: stated over unbounded numbers, like the other responses; through
  `TcpTheorems.StepOfRun` they hold of the 32-bit engine at the end of every live run.
- The packet ring between network and TCP socket: deliveries may happen at any step, which
  includes every run with that ring.
- The answers of the environment (has the frame been sent, is memory available, is the timer
  due) are free parameters; the branch of `updateHistory` without an interface is not modelled.
- Clock: one tick is one millisecond and the 64-bit time does not wrap.
- `receive` and `poll` clear the top bit of lengths, which matters from 2^31 bytes on.
- JsonRoundTrip.ValueRoundTrip: numbers are exact and printed only when they are integers below
  2^53; rounding of `double`, the `%.17g` format and infinities are not modelled.
- JsonParser.ParseText: partial values left behind by a failed parse are not modelled.
- JSON parse contexts other than the default one, and the depth of the call stack.
- InternetChecksum.Seal: checksum offloading to the network interface is not modelled; the host is
  little-endian.
- The interleaved ring assumes sequentially consistent memory, one producer and one consumer.
- Management memory: the contents of buffers, `free` on a management socket (which would bypass
  the table), and sockets with their own pool, which keep a buffer whose preparation failed.
- UdpDemux.Demux.GetFreePort: covers the calls that return; that the others do not is
  `UdpDemux.ScanEndsIff`.
- UdpDemux.Demux.Bind: likewise for a socket without a port; and ports are assumed not to be changed while a socket is bound; the TCP list
  (`libipstack/src/tcp/Demux_TCP_Slice.ah`) is not modelled.
- 6LoWPAN, routing, neighbour discovery, address text, extension headers, fragments, ARP, ICMP
  messages, operating-system glue and build scripts.
