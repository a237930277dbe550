# WebSocket byte pipeline of libwebsockets, modelled and proved in Dafny

The project models the WebSocket core of the bundled libwebsockets and the structures it stands on, for
protocol version 13 without extensions on an established connection, and proves what its design promises.

Each component has a specification on values (what one byte, one write, one call means) and, in the form the
C code has, a class or an in-place method whose contract ties its fields and buffers to that specification.
The main results are then statements about the specification, over every input and every run.

| files | what they hold |
|---|---|
| `Bytes`, `Options`, `Sequences`, `Frames` | bytes and exclusive-or, small helpers, the frame layout of RFC 6455 |
| `ServerRx`, `Delivery`, `UnmaskedFrames`, `FlowControl`, `Pausing`, `ServerConnection` | the server's frame parser, what it delivers, pausing and caching, and the code itself |
| `Send`, `SenderConnection` | framing, masking, short writes and the truncation buffer |
| `EndToEnd`, `ServerToClient` | a writing client and a reading server over a byte stream, and the other direction |
| `Utf8`, `ClientRx`, `ClientConnection`, `Conformance`, `Verdicts` | text checking, the client's frame parser, the frame sequences it accepts, and both parsers byte by byte |
| `Closing`, `Replies`, `ClosingConnection`, `Agreement` | the closing handshake across its four files, what is answered and how it ends, and that the frame parsers see it the same way |
| `UriPath`, `UriArgs`, `HeaderParser`, `HeaderLines`, `RequestTargets` | the request path canonicaliser, arguments, the header fragment store, and whole lines through it |
| `HeaderPool`, `HeaderTables` | the pool of header tables and its wait list |
| `PollTable`, `PollFds` | the poll table and the index by descriptor |
| `TimeoutList` | the intrusive list of pending timeouts |
| `Sha1`, `Sha1Vector`, `Sha1Context`, `Deflate`, `Chunked`, `Base64` | the codecs |

The socket is an environment that answers each write with an error, "again" or any number of bytes; reads are any
segmentation of the stream; user code is an arbitrary function of everything it has been called with; mask keys and
compressor output are arbitrary.

## Findings

Where the code does not do what its design suggests, the code is kept, and a lemma gives an input that shows it and
another the exact condition under which the code is right.

- In builds without assertions (with them the process stops, output.c:124), a data write refused because a remainder is
  pending leaves `inside_frame` set, so that the next write goes out without header or mask
  (`Send.RefusedWriteBreaksFraming`). Everything accepted is a whole frame exactly if no write goes out while the flag
  is set (`Send.WholeFramesExactlyIfNeverBare`), and the flag stays clear exactly if data writes come in turn and meet
  no socket error (`Send.InFramesExactlyIfPolite`).
- A server in `LWSS_SHUTDOWN` still parses, answers a second Close (`Closing.SecondClose`), and relies on `shutdown()`
  alone to keep that off the wire (`Closing.ClosesOnceExactlyIfHalfClosed`).
- A Close of one's own of which the first write takes only part is never finished. That part is what the socket takes or
  what the code's own limit lets it offer, `rx_buffer_size` and twenty bytes (`Closing.LongReasonIsCut`); the whole
  Close reaches the wire exactly if neither is short (`Closing.CloseSentWholeExactly`).
- A close status passed to `lws_close_free_wsi` is shifted by 16 instead of 8 (`Closing.GoingAwayIsMisread`), and so is
  read right exactly below 256 (`Closing.UnpreparedCloseSays`).
- The client lets through a Close reason that stops inside a character (`Conformance.CutReasonIsLetThrough`); it refuses
  one exactly if no continuation would make it valid (`Conformance.CloseFrame`).
- The client takes the mask bit into the length: a masked empty frame makes it wait for 128 bytes
  (`ClientRx.MaskedEmptyFrame`), and a short length is read right exactly if the frame is not masked
  (`ClientRx.ShortLengthReadExactly`).
- The server's frame parser makes no fragmentation checks: disorder is delivered (`Delivery.DisorderDelivered`), as is
  every sequence of frames a sender can write (`Delivery.AnyOrderDelivered`).
- PONG payload and close reason share a buffer. A reason prepared while a PONG is owed lies over the PONG's payload
  (`Replies.ReasonSpoilsPong`; `Replies.AnswersPing` says what goes out), a client that then sends the PONG masks the
  reason with it (`Replies.PongMasksReason`), and on a server a PING lies over a reason prepared before
  (`Replies.CloseSaysPing`). The reason survives a PING exactly if the two agree as far as both go
  (`Replies.PingSpoilsReason`, `Replies.ReasonSurvivesExactly`).
- The server takes unmasked frames (`UnmaskedFrames.UnmaskedIsDelivered`), and of those an extended length sends it
  astray exactly if it is zero (`UnmaskedFrames.ZeroLengthSentAstray`, `UnmaskedFrames.ExtendedLengthExactly`).
- A repeated header's value is joined with more or fewer spaces than one (`HeaderLines.TwoSpaces`), exactly as
  `HeaderLines.JoinedExactly` says. Behind a value of exactly its token's limit the next line is lost
  (`HeaderLines.FirstLine`, `HeaderLines.LostLine`).
- Before a '?' a last segment '.' is kept (`UriArgs.DotIsKept`), and behind one '..' that leads to the root the '?' is
  dropped (`UriArgs.QuestionIsDropped`), in these cases exactly (`UriArgs.QuestionExactly`). An empty last argument
  turns into a slash (`RequestTargets.TargetWithArguments`).
- The held bytes of permessage-deflate go wrong in two ways: very short outputs keep their trailer
  (`Deflate.ShortOutputsKeepTrailer`), and a call that yields nothing while five bytes are held loses four
  (`Deflate.EmptyCallLosesBytes`), which is harmless only if they are trailers and nothing else follows
  (`Deflate.LostTrailerIsHarmless`). `Deflate.TrailerRemoved` is the exact condition for every message.
- The reason prepared by a connection that is asked to close while a remainder is kept is never sent
  (`Closing.ReasonBehindRemainderIsLost`), since flushing ends in hanging up; `Closing.OwnCloseAcceptedExactly` says
  exactly when one is.
- An empty chunk before the last ends a chunked transfer early (`Chunked.EmptyChunkEndsEarly`); all data arrives exactly
  if only empty chunks follow an empty one (`Chunked.RoundTrip`).
- A newline behind base64 padding, one character or two, makes the decoder return a byte too many
  (`Base64.NewlineBehind`); trailing characters that are no symbols leave the bytes right exactly without padding, or
  if the last of them is again '=' (`Base64.JunkHarmsExactly`).
- The base64 encoder and decoder refuse a buffer with room for exactly the text and its NUL
  (`Base64.ExactRoomIsRefused`); one byte more is enough (`Base64.RoundTrip`, `Base64.Encode`).

## Model

| member | source | states |
|---|---|---|
| Frames.BigEndianRoundTrip | libwebsockets/output.c:405-438 | the eight length bytes the sender writes read back as the length, for every length below 2^63 |
| Frames.MaskTwice | libwebsockets/output.c:457-466 | masking a payload twice with one key and phase gives it back, for every payload (section 5.3 of RFC 6455) |
| Bytes.XorIsBitwise | libwebsockets/output.c:457-466 | masking works bit by bit: a bit of the result is set exactly if those of byte and key differ |
| Bytes.HexDigitsExactly | libwebsockets/parsers.c:480-492 | hexadecimal digits are read as their value in both cases, and no other character has one |
| ServerRx.BulkIsBytewise | libwebsockets/parsers.c:1464-1521 | the bulk path leaves exactly the state that feeding the same bytes one at a time leaves: buffer, head, remaining length and key phase, and no callback is made on the way |
| ServerRx.BulkAmount | libwebsockets/parsers.c:1472-1484 | the bulk path always leaves a byte for the state machine and never fills the buffer or ends the frame |
| ServerRx.NeverOverflows | libwebsockets/parsers.c:1223-1258 | whatever bytes arrive, well-formed or not, the receive buffer has room for the next one, so the "Attempted overflow" branch is never taken |
| ServerConnection.Connection.RxSm | libwebsockets/parsers.c:943-1452 | one byte through the code's fields and buffers does what the specified step does, in every parse state |
| ServerConnection.Connection.FirstHeaderByte | libwebsockets/parsers.c:1047-1075 | the first byte of a frame sets opcode, FIN and key state, or fails the connection |
| ServerConnection.Connection.LengthByte | libwebsockets/parsers.c:1077-1111 | short lengths, the mask bit, and extended lengths refused for control frames |
| ServerConnection.Connection.ExtendedLengthByte | libwebsockets/parsers.c:1113-1186 | 16 and 64 bit lengths collected byte by byte; the top bit of a 64-bit length fails the connection |
| ServerConnection.Connection.KeyByteIn | libwebsockets/parsers.c:1188-1221 | the key is collected, an all-zero key is noticed, and a masked empty frame is spilled at once |
| ServerConnection.Connection.PayloadByte | libwebsockets/parsers.c:1223-1258 | a payload byte is unmasked and stored; a finished frame or a full buffer is spilled |
| ServerConnection.Connection.Spill | libwebsockets/parsers.c:1261-1440 | who gets a spilled frame: the closing logic, the pending PONG, or user code |
| ServerConnection.Connection.SpillClose | libwebsockets/parsers.c:1270-1308 | a Close from the peer in every state: acknowledgement, second Close, pending output, user veto, answer |
| ServerConnection.Connection.PayloadUntilLengthExhausted | libwebsockets/parsers.c:1464-1521 | the mutating bulk loop, four bytes at a time with a rotated key, leaves the state the specification's bulk step leaves and takes the amount it names |
| ServerConnection.Connection.UnmaskInto | libwebsockets/parsers.c:1486-1511 | unmasking in blocks of four and a remainder equals masking with the key from its current phase |
| ServerConnection.Connection.ParseInput | libwebsockets/server.c:2035-2086 | the receive loop with bulk and byte steps ends in the state the byte machine alone reaches, having consumed the same bytes |
| ServerConnection.Connection.Interpret | libwebsockets/server.c:2035-2086 | the loop consumes input until it ends, fails or is paused, and what is left over is cached |
| ServerConnection.Connection.RxflowCache | libwebsockets/service.c:395-414 | the unconsumed rest of a read is kept, in order |
| ServerConnection.Connection.DrainCache | libwebsockets/service.c:909-922 | the cache is parsed from where it was left, stays if paused again, and is dropped and reception re-armed when empty |
| ServerConnection.Connection.Service | libwebsockets/service.c:837-1057 | one service of the socket: forced reception while closing, paused, draining, or reading |
| ServerConnection.Connection.UserCallback | libwebsockets/libwebsockets.c:983-1000 | any other callback, such as WRITEABLE: the requests user code makes in it count in order, and on a zero result a change that is due reaches poll() |
| Pausing.PauseHolds | libwebsockets/libwebsockets.c:945-955 | a pause pauses: on an open connection, once user code's last word in a callback or outside one is to pause, nothing is read and nothing parsed in any run until it asks for reception again |
| Pausing.PauseReachesPoll | libwebsockets/libwebsockets.c:1312-1346 | if that callback returns 0 and no cache is being drained, poll() is no longer asked for input |
| Pausing.ReceivePauses | libwebsockets/server.c:2047-2058 | a receive callback whose last word is to pause stops the loop right behind the byte that caused it |
| Pausing.GoesOnUnlessPaused | libwebsockets/server.c:2047-2083 | with no such callback the loop goes on to the end of its input or a failure |
| Pausing.AwaitingReadsAnyway | libwebsockets/service.c:853-922 | while the answer to a Close is awaited the pause is lifted: the cache is drained, or the socket read |
| Pausing.OwingReadsNothing | libwebsockets/service.c:853-922 | while the answer to the peer's Close is owed, what is read is thrown away |
| Verdicts.ServerFirstByte | libwebsockets/parsers.c:1047-1075 | opcode, FIN, reserved bits and binary flag as section 5.2 of RFC 6455 has them; exactly the reserved opcodes fail the connection |
| Verdicts.ServerLengthFaults | libwebsockets/parsers.c:1077-1186 | exactly a control frame with an extended length and a length of 2^63 or more fail it |
| Verdicts.ServerUserDecides | libwebsockets/parsers.c:1343-1440 | a spilled frame is reported, unless it is empty and no PONG, and user code ends the connection exactly by a negative result |
| Verdicts.ServerReportsClose | libwebsockets/parsers.c:1270-1308 | a Close is reported with its payload, a non-zero result refuses it, and with output pending the socket is given up |
| UnmaskedFrames.UnmaskedIsDelivered | libwebsockets/parsers.c:1047-1258 | every unmasked frame in shortest form is delivered like a masked one |
| UnmaskedFrames.ZeroLengthSentAstray | libwebsockets/parsers.c:1113-1186 | a concrete unmasked frame with a zero 16-bit length: the server waits for a payload, and wraps its length at the first byte |
| UnmaskedFrames.ExtendedLengthExactly | libwebsockets/parsers.c:1113-1186 | an unmasked extended length leaves that state exactly if it is zero |
| FlowControl.RunSettled | libwebsockets/libwebsockets.c:1312-1346 | over every run what poll() is asked for stays what user code last wanted, unless that change is still due |
| Delivery.FrameRun | libwebsockets/parsers.c:1047-1449 | a whole masked frame from a frame boundary: its payload reaches user code unmasked, tagged with its opcode and FIN, and the machine is at a boundary again, unless user code ends the connection |
| Delivery.PrefixDelivered | libwebsockets/parsers.c:943-1521 | for every prefix of any stream of sendable frames under any keys: what user code has is a prefix of the frames' payloads, in order |
| Delivery.PayloadRun | libwebsockets/parsers.c:1223-1449 | the payload of one frame is delivered whole, in order, however it is spilled |
| Delivery.LengthRun | libwebsockets/parsers.c:1077-1186 | the sender's shortest-form length field is read back as the length |
| Delivery.KeyRun | libwebsockets/parsers.c:1188-1221 | the four key bytes leave the state keyed and at phase zero |
| Delivery.AnyOrderDelivered | libwebsockets/parsers.c:1047-1075 | the server checks no order: every sequence of sendable frames, fragments and continuations in any order, is delivered whole to user code that does not hang up |
| Delivery.DisorderDelivered | libwebsockets/parsers.c:1047-1075 | a concrete stream with a continuation of nothing and a new message inside an unfinished one, delivered like any other |
| Delivery.InsideFrame | libwebsockets/parsers.c:943-1449 | in the middle of a frame user code has no more than the frame's payload |
| FlowControl.ConsumeIsFeeding | libwebsockets/server.c:2035-2086 | the loop is the byte machine on the bytes it consumed, and stops early only because of a failure or a pause |
| FlowControl.FeedAllCore | libwebsockets/libwebsockets.c:945-1000 | pausing and resuming reception never changes how bytes are parsed |
| FlowControl.ConsumeBulk | libwebsockets/server.c:2068-2080 | taking several bytes in bulk and then going on is the same as consuming them singly |
| FlowControl.TurnReaches | libwebsockets/server.c:2047-2083 | one turn of the loop (bulk, then a byte) is a stretch of bytewise consumption |
| FlowControl.RunConserves | libwebsockets/service.c:837-1057 | receive conservation over whole runs: bytes parsed followed by the cache are all bytes read, for every pattern of pauses and resumptions from receive callbacks, other callbacks and outside any, also in the middle of a drain, until the connection fails or user code hangs up |
| FlowControl.ResumesAfterAnyRun | libwebsockets/libwebsockets.c:983-1000 | no pause is permanent: after any run that leaves the connection open, one callback that asks for reception lets the next service go on, draining at least a byte of the cache or, without a cache, reading what has come |
| FlowControl.ServiceConserves | libwebsockets/service.c:837-1057 | one service keeps that |
| Send.RunConserves | libwebsockets/output.c:95-227 | send conservation over whole runs: bytes on the socket followed by the kept remainder are the accepted buffers in order, for every schedule of short writes, so the wire is always a prefix of them |
| Send.WholeFramesExactlyIfNeverBare | libwebsockets/output.c:293-541 | over every run, everything accepted is a whole frame exactly if no write of a payload is let through and taken while inside_frame is set |
| Send.InFramesExactlyIfPolite | libwebsockets/output.c:534-541 | over every run, everything accepted is a whole frame and the next write gets a header, exactly if every data write came while no remainder was kept, which a caller can ask for, and none met a socket error |
| Send.RefusedWriteBreaksFraming | libwebsockets/output.c:534-541 | a concrete run in which a refused write makes the next one go out without header or mask |
| Send.FirstBytesOnWire | libwebsockets/output.c:370-440 | what an accepted write puts on the wire, or keeps for it, begins with the opcode, FIN, mask bit and length that section 5.2 of RFC 6455 gives each kind of write |
| Send.WriteTells | libwebsockets/output.c:229-551 | what a caller is told and what becomes of the frame state, for every state, kind and answer: the payload's length for data, the bytes put out for a control frame, 0 where writing is over, -1 on an error or a kept remainder; a refused control frame leaves the frame state alone |
| SenderConnection.Sender.Write | libwebsockets/output.c:229-551 | the frame built in front of the caller's payload, masked in place, is what the specification sends; return value, bookkeeping and what is left of the caller's buffer included |
| SenderConnection.Sender.IssueNew | libwebsockets/output.c:95-227 | a write of a caller's buffer: refused while a remainder is kept, cut to the send limit, its rest kept |
| SenderConnection.Sender.IssuePending | libwebsockets/output.c:168-197 | the remainder advances by what the socket takes, and its end is reported |
| SenderConnection.Sender.Keep | libwebsockets/output.c:199-226 | the rest of a short write is copied aside, in the old allocation if it is large enough |
| SenderConnection.Sender.FrameInPlace | libwebsockets/output.c:370-466 | header and mask are put in front of the payload where it lies |
| SenderConnection.Sender.MaskInPlace | libwebsockets/output.c:444-466 | the masking loop gives the masked payload with the key in front, and touches nothing behind it |
| SenderConnection.Sender.PutLength64 | libwebsockets/output.c:417-434 | the shifted and truncated length bytes are the big-endian length |
| SenderConnection.Sender.Flush | libwebsockets/service.c:66-80 | when the socket is writable the remainder goes first |
| EndToEnd.EndToEndPrefix | libwebsockets/output.c:95-541 | for every interleaving of client writes, short sends, flushes, server reads and other server callbacks, with pauses and resumptions from any of them and any keys, in which no write goes out bare: the payload bytes user code on the server has, with opcode and FIN, are a prefix of what was accepted for sending, and all of it once every byte has been parsed; the connection fails only if user code asks for it |
| EndToEnd.RunSound | libwebsockets/server.c:2035-2086 | both conservation laws, framing and the byte stream between the two ends hold after every step of such a run |
| EndToEnd.BytesAreWire | libwebsockets/output.c:370-466 | the accepted buffers are the wire form of the accepted frames |
| ServerToClient.ServerToClientPrefix | libwebsockets/client-parser.c:24-570 | the other direction, for every run of a writing server in which no write goes out bare, every schedule of short writes, and every beginning of the stream a fresh client has read: if the accepted frames conform the client is open and user code has a prefix of their payload bytes with opcode and FIN; when all is sent and read it is open exactly if they conform, and then has all of them |
| ServerToClient.BytesAreStream | libwebsockets/output.c:370-466 | what a server has accepted is the stream of its frames |
| ServerToClient.BeginningOf | libwebsockets/client-parser.c:24-570 | a beginning of an accepted stream is accepted, and delivers a beginning of what the whole delivers |
| Utf8.CheckUtf8 | libwebsockets/libwebsockets.c:1349-1404 | the packed-byte loop computes the automaton's run on the buffer from the given state |
| Utf8.CheckIsExact | libwebsockets/libwebsockets.c:1349-1404 | a text ends in state 0 exactly if it is valid UTF-8 as section 4 of RFC 3629 defines it |
| Utf8.RejectsAtOnce | libwebsockets/libwebsockets.c:1349-1404 | a text is rejected exactly when no continuation could make it valid |
| Utf8.RunKnown | libwebsockets/libwebsockets.c:1349-1404 | only eight of the 256 state bytes ever occur |
| ClientConnection.Connection.RxSm | libwebsockets/client-parser.c:24-570 | one byte through the client's fields and buffers does what the specified step does, and the buffer has room for the next |
| ClientConnection.Connection.Receive | libwebsockets/client.c:48-62 | the receive loop over a whole read is the specification's run over its bytes |
| ClientConnection.Connection.CheckFirst | libwebsockets/client-parser.c:55-142 | the checks on a frame's first byte and the fragmentation and text state they leave |
| ClientConnection.Connection.LengthByte | libwebsockets/client-parser.c:151-184 | short lengths, extended lengths refused for control frames; the mask bit stays in the length of a masked frame |
| ClientRx.ShortLengthReadExactly | libwebsockets/client-parser.c:151-184 | a short length byte is read as the length it says exactly if its mask bit is clear |
| ClientRx.MaskedEmptyFrame | libwebsockets/client-parser.c:151-184 | a concrete masked empty frame leaves the client waiting for 128 bytes of payload |
| ClientConnection.Connection.ExtendedLengthByte | libwebsockets/client-parser.c:186-270 | 16 and 64 bit lengths, an empty frame spilled at once |
| ClientConnection.Connection.KeyByteIn | libwebsockets/client-parser.c:272-305 | the key bytes of a masked frame |
| ClientConnection.Connection.PayloadByte | libwebsockets/client-parser.c:307-332 | a payload byte is stored; a finished frame or a full buffer is spilled |
| Verdicts.CloseCodePassesExactly | libwebsockets/client-parser.c:366-380 | a Close is reported and parroted as it came exactly if its code is one of 1000 to 1003, 1007 to 1011, or 3000 up; any other code becomes 1002, and the text behind is untouched |
| Verdicts.CloseReported | libwebsockets/client-parser.c:345-393 | so a whole good Close frame makes exactly one such report |
| Verdicts.ClientUserDecides | libwebsockets/client-parser.c:545-556 | any result but 0 ends the connection, and 0 keeps it |
| Verdicts.ClientLengthFaults | libwebsockets/client-parser.c:151-200 | exactly a control frame with an extended length and a length of 2^63 or more are faults |
| ClientConnection.Connection.SpillClose | libwebsockets/client-parser.c:345-393 | a Close from the server: its reason is checked, a forbidden code is replaced by 1002, user code is told, the connection ends |
| ClientConnection.Connection.SpillPing | libwebsockets/client-parser.c:395-431 | a PING is remembered unless one is pending, a reason is set or it is too long |
| ClientConnection.Connection.SpillData | libwebsockets/client-parser.c:489-556 | text is checked before it is handed over and must not end inside a character |
| Conformance.AcceptsExactlyConformant | libwebsockets/client-parser.c:54-556 | the client stays open on a sequence of frames exactly if it conforms: continuation only inside a message, new text or binary only outside, control frames anywhere but whole and at most 125 bytes, no reserved bits, and text valid UTF-8 however it is fragmented, spilled or interrupted; and if it stays open, the payload bytes of the frames, with opcode and FIN, are what user code has been given, in order |
| Conformance.FreshAcceptsExactlyConformant | libwebsockets/client-parser.c:24-570 | and a fresh client does so from its first byte |
| Conformance.FrameStep | libwebsockets/client-parser.c:54-556 | one frame is accepted exactly if it is allowed after the ones before, and rejected otherwise |
| Conformance.DataFrame | libwebsockets/client-parser.c:502-514 | a text frame is accepted exactly if the message so far is a beginning of, or with FIN is, valid UTF-8 |
| Conformance.PayloadRun | libwebsockets/client-parser.c:307-556 | however a payload is spilled, the verdict on it is the checker's on the whole |
| Conformance.FirstByteVerdict | libwebsockets/client-parser.c:55-142 | the first byte is refused exactly for reserved bits, bad opcodes, fragmented control frames and breaches of the fragmentation grammar |
| Conformance.CloseFrame | libwebsockets/client-parser.c:345-393 | a Close frame ends the connection as a fault exactly for reserved bits, fragmentation, more than 125 bytes or a reason that is no beginning of UTF-8 text; otherwise it is reported once |
| Conformance.CutReasonIsLetThrough | libwebsockets/client-parser.c:345-351 | a concrete reason that stops inside a character is accepted |
| Closing.RunClosesOnce | libwebsockets/libwebsockets.c:216-367 | in every run an endpoint gets at most one Close accepted for sending, as its last frame of all, the socket sees only a prefix of those frames, and after a Close nothing else is accepted |
| Closing.ClosesOnceExactlyIfHalfClosed | libwebsockets/libwebsockets.c:388-420 | for a client always, for a server exactly if shutting down the sending side of its socket works, every run has at most one Close, at the end |
| Closing.SecondClose | libwebsockets/handshake.c:226-241 | a concrete run in which a server in LWSS_SHUTDOWN answers a second Close, were its socket still sending |
| Closing.CloseSentWholeExactly | libwebsockets/libwebsockets.c:326-367 | a Close of one's own with a prepared reason reaches the wire whole in some run exactly if its first write takes all of it: the socket offers that much, and the code's own limit for one write is not below its size |
| Closing.ShortCloseIsNeverFinished | libwebsockets/service.c:840-851 | while the answer is awaited POLLOUT is not looked at, so the rest of such a Close is never sent, whatever happens after |
| Closing.LongReasonIsCut | libwebsockets/output.c:137-142 | an instance: with a receive buffer of 64 bytes, a server's longest reason is cut after 84 bytes by a socket that would take everything |
| Agreement.ServerControlFrame | libwebsockets/parsers.c:1270-1341 | a PING or Close does the same to the server's parser state and to the closing model, or closes the connection in both |
| Agreement.ClientClose | libwebsockets/client-parser.c:345-393 | a Close the client's parser accepts is the one the closing model parrots, its code put right |
| Agreement.ClientPing | libwebsockets/client-parser.c:395-431 | a PING does the same to the client's parser state and to the closing model |
| Closing.CloseFreeGood | libwebsockets/libwebsockets.c:216-420 | closing for any reason in any state keeps the closing invariant |
| Closing.PolloutGood | libwebsockets/service.c:66-163 | the POLLOUT priorities keep it: remainder first, then the pending PONG or Close, and never anything after a Close |
| Closing.PeerCloseGood | libwebsockets/parsers.c:1270-1308 | a Close from the peer keeps it, on a server and on a client |
| Closing.EchoesPeerClose | libwebsockets/parsers.c:1304-1341 | a server answers the peer's Close with its payload, replacing a PONG it owed, whatever PINGs and writes come between; after a refused data write the answer loses its header |
| Replies.AnswersPing | libwebsockets/service.c:112-136 | server and client: the first PING of an idle connection is answered by exactly one PONG at the next POLLOUT, whatever PINGs and checks come between; it has the PING's payload except where close reasons prepared meanwhile lie over it |
| Replies.ReasonSpoilsPong | libwebsockets/libwebsockets.c:1284-1310 | a concrete PING whose PONG carries the code 1000 of a reason prepared meanwhile |
| Replies.DropsPingExactly | libwebsockets/client-parser.c:395-431 | a PING is dropped exactly if one is pending, it is longer than 125 bytes, nobody reads any more, or a client has its reason ready |
| Replies.ChecksWithEmptyPing | libwebsockets/service.c:138-155 | with no PONG to send, a check sends an empty PING |
| Replies.RemainderFirst | libwebsockets/service.c:70-80 | what is kept back goes before anything else, and alone |
| Replies.PingSpoilsReason | libwebsockets/parsers.c:1310-1341 | a PING that comes after a reason was prepared: a server's Close has the PING's bytes over its own, a client's has not |
| Replies.CloseSaysPing | libwebsockets/parsers.c:1310-1341 | a concrete server that prepared 1000 and says 26729 |
| Replies.ReasonSurvivesExactly | libwebsockets/parsers.c:1322-1327 | the bytes below survive exactly if the two agree as far as both go |
| Replies.PongMasksReason | libwebsockets/service.c:119-129 | a client that sends the PONG it owes masks the reason prepared meanwhile along with it, as far as the PONG goes |
| Replies.ClientParrotsClose | libwebsockets/client-parser.c:381-393 | a client parrots the Close it gets, whole, and hangs up, or flushes first |
| Replies.AcknowledgedCloseEnds | libwebsockets/handshake.c:226-241 | the Close awaited ends the connection and is not answered again |
| Replies.CloseBehindRemainder | libwebsockets/parsers.c:1283-1290 | a server that still owes bytes when the Close comes drops the connection without an answer |
| Replies.HangsUpInTwo | libwebsockets/libwebsockets.c:369-420 | hanging up takes two calls, or one on a broken socket: the sending side is shut down, then all is over |
| Replies.FlushingEnds | libwebsockets/service.c:66-80 | with the remainder gone, flushing before a close ends in the same POLLOUT; short of that it gets shorter, and an error ends it |
| Closing.PreparedCloseSays | libwebsockets/libwebsockets.c:1284-1310 | a prepared reason goes out as the Close: its code and what fits of its text |
| Closing.OwnCloseAcceptedExactly | libwebsockets/libwebsockets.c:216-367 | however an open connection goes on after it is asked to close, a Close of its own is accepted for sending in some run exactly if there is a reason, prepared or given, nothing is kept back, and the socket works and gives no error |
| Closing.ReasonBehindRemainderIsLost | libwebsockets/libwebsockets.c:232-246 | a concrete server with one byte kept back: in no run is its prepared reason accepted |
| Closing.UnpreparedCloseSays | libwebsockets/libwebsockets.c:326-349 | a status given without a prepared reason is shifted by 16, so the peer reads it right exactly below 256 |
| Closing.GoingAwayIsMisread | libwebsockets/libwebsockets.c:326-349 | an instance: 1001 goes out as 233 |
| ClosingConnection.Connection.OwnClose | libwebsockets/libwebsockets.c:326-367 | a Close of one's own is framed from the control payload buffer, and its fate decides the next state |
| ClosingConnection.Connection.ClientPeerClose | libwebsockets/client-parser.c:345-393 | a client parrots the Close out of its receive buffer and closes |
| ClosingConnection.Connection.PeerPing | libwebsockets/parsers.c:1310-1341 | a PING is copied into the control payload buffer, or dropped |
| ClosingConnection.Connection.SetReason | libwebsockets/libwebsockets.c:1284-1310 | the reason is written into the control payload buffer, cut to its size |
| UriPath.StoredPathIsNormal | libwebsockets/parsers.c:562-735 | for every request target with complete escapes that decodes to an absolute path, the path automaton stores the stack-of-segments normal form; the code runs that automaton on targets in which '?', '&', ';', '+', CR and NUL do not occur, plain or coded (OrdinaryFrom) |
| UriPath.DecodesFirst | libwebsockets/parsers.c:594-625 | escapes are decoded before path processing, so a coded dot or slash counts like a plain one |
| UriPath.TracksByte | libwebsockets/parsers.c:627-735 | one more decoded byte keeps the automaton and the segment stack together |
| UriPath.BackupPops | libwebsockets/parsers.c:703-722 | backing up over the stored text removes the last kept segment, and at the root nothing |
| UriPath.FinishNormalises | libwebsockets/parsers.c:564-592 | the space at the end treats a trailing '.' or '..' as the normal form does |
| UriPath.KeptSegmentsAreOrdinary | libwebsockets/parsers.c:627-735 | no kept segment is empty, '.' or '..' |
| UriArgs.QuestionExactly | libwebsockets/parsers.c:639-758 | a path before a plain '?' is stored in normal form exactly unless its last segment is '.', which is kept, and arguments begin exactly unless its last segment is one '..' that leads to the root, where the '?' is dropped |
| UriArgs.DotIsKept | libwebsockets/parsers.c:683-699 | a concrete path, '/.' before '?', whose dot is kept |
| UriArgs.QuestionIsDropped | libwebsockets/parsers.c:703-731 | a concrete path, '/..' before '?', whose '?' is dropped |
| RequestTargets.TargetWithArguments | libwebsockets/parsers.c:527-758 | from nothing to the space behind a target with arguments: the path in the method's header, and each argument decoded in a fragment of its own, linked to the next, split at plain '&' and ';', a plain '+' a space, an escaped '=' in a name an underscore; an empty last argument turns into '/' |
| HeaderParser.Headers.Parse | libwebsockets/parsers.c:527-935 | after any byte the fragment store is well linked: fragments ordered, disjoint, inside the data, links strictly forward; a byte of the target does to the stored path what the automaton does |
| HeaderLines.FirstLine | libwebsockets/parsers.c:740-915 | the line of a header not seen before: its value is what follows the leading spaces, cut at the token's limit, NUL-terminated, and the header is nothing else; the next line is read as one exactly unless the value is as long as the limit |
| HeaderLines.RepeatedLine | libwebsockets/parsers.c:864-888 | the line of a header that was there before: a space and the line's bytes come behind its value, all spaces left out if the first line was empty, and none otherwise |
| HeaderLines.JoinedExactly | libwebsockets/parsers.c:549-554 | so values are joined by one space exactly if the repeated line does not begin with one, or, behind an empty first line, has none between other bytes or behind them |
| HeaderLines.TwoSpaces | libwebsockets/parsers.c:549-554 | two concrete lines whose values end up two spaces apart |
| HeaderLines.LostLine | libwebsockets/parsers.c:516-524 | behind a value of exactly its limit a whole line is lost, whatever it says |
| HeaderLines.SkippedLine | libwebsockets/parsers.c:891-912 | the line of an unknown header leaves everything stored as it was; a server refuses it before any method |
| HeaderLines.RequestLine | libwebsockets/parsers.c:527-915 | a whole request line from nothing: method, normal form of the target, and version |
| HeaderParser.Headers.CollectTarget | libwebsockets/parsers.c:562-735 | a whole request target byte by byte: unless space runs out, the fragment of its method holds the normal form of the decoded target, NUL-terminated |
| HeaderParser.Headers.ParseAll | libwebsockets/parsers.c:527-935 | after any byte string to an empty store the fragments are well linked, and every header's chain together is no longer than what has been stored |
| HeaderParser.Headers.RequestTarget | libwebsockets/parsers.c:527-735 | from an empty store, a method name and then any such target and a space: the method's header is the normal form of the decoded target, NUL-terminated; it fails only if the target and three bytes do not fit |
| HeaderParser.Headers.Reset | libwebsockets/parsers.c:66-77 | resetting gives an empty, well linked store, whatever it held |
| HeaderParser.Headers.NextRequest | libwebsockets/libwebsockets.c:1247-1253 | before the next request on a connection kept alive the store is empty and the path state as at first, so that Headers.RequestTarget holds for it too |
| HeaderParser.ChainFits | libwebsockets/parsers.c:355-369 | a header's fragments together are no longer than the data they lie in |
| HeaderParser.OffsetsGrow | libwebsockets/parsers.c:864-888 | later fragments lie wholly behind earlier ones |
| HeaderParser.Headers.TotalLength | libwebsockets/parsers.c:355-369 | the walk along the links ends and adds up the fragments' lengths |
| HeaderParser.Headers.IssueChar | libwebsockets/parsers.c:494-525 | storing a character: refused without space; stored below the token limit; at the limit a NUL is stored and the character is dropped |
| HeaderParser.Headers.BackupInPlace | libwebsockets/parsers.c:570-585 | backing up in place is the specification's Backup on the fragment's text, and other fragments stay |
| HeaderParser.Headers.StartFragment | libwebsockets/parsers.c:864-888 | a header's first fragment is what its index names; one of a header seen before is linked behind the last of its chain, after a separating space |
| HeaderParser.Headers.LinkBehind | libwebsockets/parsers.c:882-888 | only the last link of the header's chain changes, and the space becomes the new fragment's first character |
| HeaderParser.Headers.PathStates | libwebsockets/parsers.c:627-735 | the path states do to the stored text what the automaton does |
| HeaderParser.Headers.Unescape | libwebsockets/parsers.c:594-625 | the escape states, byte by byte |
| HeaderParser.Headers.EndTarget | libwebsockets/parsers.c:562-592 | the space after the target stores the finished path and seals it |
| HeaderPool.RunGood | libwebsockets/parsers.c:111-336 | in every run nobody owns two header tables, nobody waits twice or while owning one, and nobody waits while one is free |
| HeaderPool.ServedAtKthRelease | libwebsockets/parsers.c:268-312 | with no waiter leaving, the k-th oldest waiter gets, at exactly the k-th later release, the table released there |
| HeaderPool.MovesUp | libwebsockets/parsers.c:268-312 | before that it has only moved up, one place a release |
| HeaderPool.AttachGood | libwebsockets/parsers.c:111-204 | after attaching, a connection either owns a table or waits |
| HeaderPool.DetachGood | libwebsockets/parsers.c:208-336 | after detaching it does neither |
| HeaderPool.AttachServesOrQueues | libwebsockets/parsers.c:111-204 | attaching serves the caller exactly if it owns a table or one is free, else it becomes the newest waiter; nobody else gains or loses |
| HeaderPool.DetachHandsOver | libwebsockets/parsers.c:208-336 | detaching hands the table to the oldest waiter, or frees it; nobody else gains or loses |
| HeaderPool.FullExactlyIfAllUsed | libwebsockets/parsers.c:146-170 | the count of tables in use is the pool's size exactly if none is free |
| HeaderTables.PerThread.Attach | libwebsockets/parsers.c:111-204 | attaching on the linked wait list and mutual pointers: entry and owner point at each other, the count is right, and the pool is as specified |
| HeaderTables.PerThread.Detach | libwebsockets/parsers.c:208-336 | detaching likewise; a table with unread bytes stays where it is |
| HeaderTables.PerThread.Unlink | libwebsockets/parsers.c:310-314 | taking a waiter out leaves the chain visiting the others in order |
| HeaderTables.PerThread.FindOldest | libwebsockets/parsers.c:283-287 | the walk to the end of the list finds the oldest waiter |
| PollTable.RunMirrors | libwebsockets/pollfd.c:110-284 | over any inserts, swap-removes and event changes the table holds exactly what a map from sockets to events would, and never outgrows its limit |
| PollTable.SwapRemoveMirrors | libwebsockets/pollfd.c:246-247 | whichever slot goes, also the last, the others are all still there with their events |
| PollTable.RunListens | libwebsockets/pollfd.c:170-173 | over every run the listening socket is polled for input exactly while more than one slot is free |
| PollTable.BitsChange | libwebsockets/pollfd.c:40-44 | a bit that is set is on, one only cleared is off, and others stay |
| PollFds.PerThread.Insert | libwebsockets/pollfd.c:110-181 | a new connection gets the last slot, and slot and index know each other; refused without room or descriptor space |
| PollFds.PerThread.Remove | libwebsockets/pollfd.c:183-284 | the removed connection has no slot and no index entry, the one moved into its place knows its new position, and the listening socket resumes when there is room |
| PollFds.PerThread.SwapOut | libwebsockets/pollfd.c:246-264 | the swap and its index updates keep table and index mutually inverse, also for the last slot |
| PollFds.PerThread.ChangePollfd | libwebsockets/pollfd.c:24-46 | only the named connection's events change |
| PollFds.PerThread.InTable | libwebsockets/private-libwebsockets.h:1521-1523 | having a position, being in the index and being in the table are the same |
| TimeoutList.MemberExactlyIfPending | libwebsockets/libwebsockets.c:97-127 | after any calls a connection is in the list, once, exactly if the last call for it gave a reason |
| TimeoutList.OthersKeepOrder | libwebsockets/libwebsockets.c:76-127 | members that no call concerns keep their relative order |
| TimeoutList.SetOnlyMoves | libwebsockets/libwebsockets.c:97-127 | one call concerns nobody else |
| TimeoutList.PerThread.SetTimeout | libwebsockets/libwebsockets.c:97-127 | on the intrusive list: acyclic, each back pointer the cell that points at its member, membership as pending, others untouched |
| TimeoutList.PerThread.Remove | libwebsockets/libwebsockets.c:76-95 | unlinking through the back pointer leaves the others linked in order |
| TimeoutList.PerThread.PushFront | libwebsockets/libwebsockets.c:107-117 | linking in at the front keeps every back pointer right |
| Sha1Context.SHA1 | libwebsockets/sha-1.c:288-298 | for every message below 2^61 bytes the result is SHA-1 as FIPS 180-4 defines it (sections 5.1.1 and 6.1.2) |
| Sha1Context.Context.Loop | libwebsockets/sha-1.c:236-259 | the context depends only on all bytes fed so far, however they are split over calls, and the bit counter counts them |
| Sha1Context.Context.Step | libwebsockets/sha-1.c:103-187 | one block with the schedule kept in place in 16 words is the 80-word method's compression |
| Sha1Context.Context.RunRounds | libwebsockets/sha-1.c:149-178 | the circular 16-word schedule agrees with the 80-word one at every round |
| Sha1Context.Context.PadOut | libwebsockets/sha-1.c:202-234 | padding is the bit, the zeros and the length, with an extra block when the rest is short |
| Sha1Context.SameFunctions | libwebsockets/sha-1.c:73-76 | the code's round functions written with OR equal the standard's |
| Sha1Vector.AbcDigest | libwebsockets/sha-1.c:288-298 | the digest of "abc" is the one FIPS 180 gives |
| Deflate.Accounts | libwebsockets/extension-permessage-deflate.c:362-431 | for every message, calls that yield nothing included: what is issued is shorter than the output by four bytes for each call before the last that starves (yields nothing while five bytes are held), and by four more exactly if something is held at the last call or that one yields four bytes; nothing stays held |
| Deflate.SnipsExactly | libwebsockets/extension-permessage-deflate.c:362-431 | if no call starves, the four bytes missing are the last ones of the output, and otherwise it is issued whole |
| Deflate.NeverStarvesExactly | libwebsockets/extension-permessage-deflate.c:372-386 | no call starves exactly if, once a call has yielded five bytes, every further one before the last yields something |
| Deflate.CutsExactly | libwebsockets/extension-permessage-deflate.c:419-427 | without starving, the end is cut exactly if the last call yields at least four bytes or an earlier one at least five |
| Deflate.TrailerRemoved | libwebsockets/extension-permessage-deflate.c:362-431 | for every message, appending 00 00 FF FF to what was issued gives the output (section 7.2.1 of RFC 7692) exactly if no call starves, the end is cut and is that trailer; or one call starves, nothing is cut, and from the bytes it loses on the output is nothing but trailers |
| Deflate.ShortOutputsKeepTrailer | libwebsockets/extension-permessage-deflate.c:397-431 | a concrete message whose trailer fills a two-byte buffer twice, and stays |
| Deflate.LostTrailerIsHarmless | libwebsockets/extension-permessage-deflate.c:372-386 | a concrete message in which the lost bytes are the trailer, and all is well |
| Deflate.FlushedFirst | libwebsockets/extension-permessage-deflate.c:362-370 | a message whose first call yields five bytes comes out right if every call before the last yields something; if one does not, it starves |
| Deflate.Stream | libwebsockets/extension-permessage-deflate.c:362-431 | nothing is carried over from one message to the next |
| Deflate.EmptyCallLosesBytes | libwebsockets/extension-permessage-deflate.c:372-386 | concrete calls, the second of which starves: one byte of nine comes out |
| Deflate.Compressor.PayloadTx | libwebsockets/extension-permessage-deflate.c:362-435 | the held-byte bookkeeping on the output buffer issues and keeps what the specification says |
| Chunked.RoundTrip | libwebsockets/service.c:563-659 | however the server's chunks are cut into reads, the client delivers the data up to the first empty chunk and completes there; that is all of it exactly if only empty chunks follow an empty one |
| Chunked.EmptyChunkEndsEarly | libwebsockets/service.c:577-585 | a concrete transfer whose data behind an empty chunk is lost |
| Chunked.HttpClient.Read | libwebsockets/service.c:563-659 | one read, with content taken in bulk, delivers and leaves what byte-by-byte parsing does; after completion nothing more is delivered |
| Chunked.Print | libwebsockets/server.c:2718-2743 | the size line in front of the data and the line end or terminator behind it, written in place; refused exactly when the padding is used up |
| Chunked.DigitsRead | libwebsockets/service.c:566-577 | the hexadecimal size printed is the size read |
| Chunked.FaultsExactly | libwebsockets/service.c:563-615 | exactly what is malformed: no digit or CR in a size, no LF behind it, no CR and LF behind the data; and exactly an LF behind a zero size completes |
| Base64.SymbolIsStandard | libwebsockets/base64-decode.c:45-48 | encoder and decoder agree with the alphabet of RFC 4648, table 1, and nothing else has a value |
| Base64.RoundTrip | libwebsockets/base64-decode.c:97-153 | decoding the encoding of any bytes gives them and their number back, and fits exactly if there is room for them, a NUL and one byte more |
| Base64.ExactRoomIsRefused | libwebsockets/base64-decode.c:147-148 | for all data, room for exactly the bytes and the NUL is refused |
| Base64.EncodedLength | libwebsockets/base64-decode.c:50-90 | the encoding has four characters for every three bytes or part of three |
| Base64.Encode | libwebsockets/base64-decode.c:50-90 | the encoder's loop writes the encoding and a NUL, or fails exactly when there is no room for them and one byte more |
| Base64.Decode | libwebsockets/base64-decode.c:97-153 | the decoder's loops on any text return the specified length, bytes and NUL, or fail where the specification does |
| Base64.JunkHarmsExactly | libwebsockets/base64-decode.c:97-153 | for all data, with characters that are no symbols behind their encoding: the bytes come back right exactly if there is no padding or the last character is again '=', and the returned length is right exactly if just one of these holds |
| Base64.NewlineBehind | libwebsockets/base64-decode.c:127-140 | with a newline behind, one byte comes back as two, two as three, and three as three |

## Left out

- Extensions inside the frame parsers and `lws_write`, HTTP/2, CGI, SSL, libuv and libev, and the HTTP write types: the model is the plain WebSocket path with `poll()`.
- Failing allocations, a failing random source, and the freeing of memory when a connection dies.
- SenderConnection.Sender.Write: requests of 2^31 - 16 bytes or more, are excluded, since the function returns an `int`; the recognition of the truncation buffer by address range becomes two operations, one on a caller's buffer and one on the remainder.
- EndToEnd.EndToEndPrefix: is about runs in which no write goes out bare; `Send.WholeFramesExactlyIfNeverBare` says that framing holds exactly then. Frames are data, PING and PONG with control payloads up to 125 bytes; Close is covered by the closing model.
- Delivery.PrefixDelivered: states delivery by payload bytes tagged with opcode and FIN, since the server makes no callback for an empty data frame.
- Delivery.LengthRun: is about shortest-form lengths (section 5.2 of RFC 6455), which the sender always writes.
- Conformance.AcceptsExactlyConformant: is about unmasked frames from a server and user code that does not itself end the connection; Close frames are the subject of `Conformance.CloseFrame`.
- ClientConnection.Connection.Receive: pausing and caching of reception on the client, which is the server's mechanism once more (client.c:45-59). Mask key and index are one per connection in the code, used by what a client sends and by a masked frame it receives; the model has one for each direction, which makes a difference only for the masked frames a server must not send.
- The upgrade handshake, the accept key, the choice of protocol and the handshake parts of the client.
- Closing.RunClosesOnce: timeouts appear as steps that may come at any moment; that the socket ever takes what is flushed before a close is not stated.
- Closing.CloseSentWholeExactly: is about an open connection that keeps nothing back and has a reason prepared; on a client, shutting down the sending side of the socket is taken to work.
- Closing.OwnCloseAcceptedExactly: on a server, shutting down the sending side of the socket is taken to work; `Closing.SecondClose` shows what may follow if it does not.
- ServerToClient.ServerToClientPrefix: is about user code that does not end the connection, servers that write no Close and a client that does not pause; what is delivered of frames that do not conform, up to the fault, is not stated.
- FlowControl.RunConserves: while the server still owes the answer to a Close, the code drops what it reads; the law then speaks of the bytes parsed before.
- HeaderParser.Headers.RequestTarget: is about a token limit not below the buffer's size, which is the default.
- HeaderParser.Headers.Parse: the name table is an abstract answer for each byte of a header name; a token limit of zero and header buffers over 65535 bytes are excluded. What '&', ';', '+', CR and NUL do before any '?', and CR and NUL behind it, is handled by the code model and keeps the store well linked, without a result about the text.
- HeaderLines.RepeatedLine: states a header's value as the texts of its fragments one after the other, which `lws_hdr_copy` copies.
- `lws_hdr_copy` and its relatives, form decoding, and '$' substitution in chunked output.
- HeaderPool.ServedAtKthRelease: is about runs in which no waiter gives up; the automatic service after attaching and client connection attempts made from inside attach and detach are not part of it.
- PollTable.RunMirrors: poll locking callbacks that fail, and platforms that allocate slots elsewhere; the listening socket is taken to keep its descriptor.
- TimeoutList.PerThread.SetTimeout: what the service loop does with an expired timeout.
- Sha1Context.SHA1: the byte and word views of the context's union are modelled as loading words from bytes; the message is below 2^61 bytes.
- Deflate.TrailerRemoved: zlib is an oracle; receiving and the memory-saving reset between messages are not modelled.
- Chunked.RoundTrip: chunk sizes below 2^31 and callbacks that do not end the connection; chunk extensions and trailers are faults or ignored as in the code.
- Base64.Decode: places of a quad that no symbol reaches hold an arbitrary earlier six-bit value, where the C code reads an uninitialised byte.
- `lejp`, HPACK, the Huffman tables, file serving, logging, and the camera application around the library.
