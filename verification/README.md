# A model of the WebSocket/HTTP library

This project models the protocol engine of the library and proves what it promises, in four layers
that build on each other.

1. **Frames.** The server's frame writer and the parsing half of its read loop, the client's own
   writer and reader, and the buffered parser of the JavaScript client. `Frames`, `FrameReader`,
   `FrameCodec`, `ClientFrames`, `ClosePayloads` and `IncrementalParsing` prove that writers and
   parsers are inverse, that the separately written decoders agree on arbitrary octets, and that
   chunking makes no difference.
2. **Messages.** `FrameBody` with `handle_parsed_frame` on the server, `read_message` on the client.
   `Receiver`, `Reception`, `Oversize`, `ClientReceiver`, `Agreement` and `ClientSession` prove what is
   delivered on well-formed streams, what is left of messages that are too big, what holds on all
   streams, and exactly when both sides deliver the same.
3. **Concurrency.** `WriteQueue` and `CloseRace` are state machines over the steps of any number of
   coroutines and threads; a step is the code between two suspension points, or one atomic effect.
   `EndToEnd` joins the write queue to the client: what is enqueued is what is received, in order.
   `Duplex` adds the read loop as one more sender: what the client reads answers what it sent.
4. **HTTP codecs.** `Base64`, `Query`, `HttpRequest`, `RequestReader`, `Mounts` and `Transfer`.

Where the program changes state or runs a loop, a function says what that code does (`Encode`,
`ParseFrame`, `Handle`, `Feed`, `Enter`, `ParseRequest`, `ReadRequest`) and a method or a class, in the
form of the program, is proved to do that; lemmas prove what the library promises about the function.
Octets are `bv8`, keys and the base64 accumulator are `bv32`, lengths are naturals written out in
big-endian octets.

To check it: `dafny verify dfyconfig.toml`.

## Where the code departs from what one would expect

The model follows the code. These facts are stated as theorems, with the exact condition where there
is one.

- The client's base64 encoder never emits padding, so its handshake key is not base64 of sixteen
  octets (`Base64.GroupedIsBase64Exactly`, `Base64.HandshakeKeyIsNotSixteenOctets`).
- A continuation frame that continues nothing is reported and then delivered all the same
  (`Agreement.StrayContinuationIsDelivered`, `Agreement.AssemblersAgreeExactly`).
- A message refused as too big may still be delivered in part: it is if and only if its FIN frame is
  not itself refused (`Oversize.MessageOfAnySize`, with an input in `Oversize.TailIsDelivered`).
- The limits of the two sides differ: the server refuses messages above 10 MiB, the client frames above
  8 MiB but no message. So a message of 9 MiB in one frame is delivered by the server and not by the
  client (`Agreement.NineMebibytes`). The client returns what was complete before the first frame it
  refuses, and the server delivers exactly the same if and only if those messages are within its limit
  and the last part of every other is one it refuses (`Agreement.SameMessagesExactly`); where no frame
  is above 8 MiB, if and only if no message is above 10 MiB (`Agreement.SameReadableMessages`).
- The server drops RSV bits and accepts non-minimal lengths, the client refuses the former
  (`FrameCodec.ReencodeExactly`, `ClientFrames.DecoderAgreement`).
- `parseFrames` returns at a Close and looks at what follows only with the next chunk
  (`IncrementalParsing.ChunkIndependence`, with an input in `IncrementalParsing.PongBehindClose`).
- A sender that finds a drainer returns before its frame is written, so `close_async` may close the
  socket in front of its own Close frame (`WriteQueue.ReturnMeansFlushed`, with a run on which the
  frame is never sent in `WriteQueue.CloseFrameIsLost`). After a failed write the queue never moves
  again (`WriteQueue.FailureIsFinal`).
- `write_file_response` counts a chunk as done before it is written; the octets sent and those
  remaining add up if and only if no write is cut short (`Transfer.WriteFile`), which can happen to every
  file but an empty one (`Transfer.CountedButNotSent`).
- An empty or oversized Close payload is not echoed as it came (`ClosePayloads.EchoExactly`).

## Assumptions

- The segments of `do_write` between two `co_await`s are atomic. The write strand gives this to
  `send_text_async`, `send_binary_async` and `close_async`; the read loop enters `do_write` from
  another executor (src/server.cpp:160), where the code itself does not guarantee it.
- `on_message` and `on_close` are set. The model records their calls as events; a handler that is
  missing would be skipped.
- Memory is never exhausted, so a frame that announces a huge length is waited for.
- A socket is the sequence of octets that arrive before its end. A read that the stream cannot
  satisfy ends the read loop, as the exception does in the code.
- The four random octets or the random key of a frame are arbitrary parameters.

## Model

| member | source | states |
|---|---|---|
| Frames.WriteFrame | include/websocket/WsFrame.h:20-68 | the frame writer's pushes and loops produce the wire form of section 5.2 of RFC 6455: flag octet, length form, key, masked payload |
| Frames.PushEightOctets | include/websocket/WsFrame.h:45-47 | the loop from shift 56 down to 0 appends the eight-octet big-endian length |
| Frames.PushPayload | include/websocket/WsFrame.h:59-65 | masking with shifts of the 32-bit key appends the payload combined octet by octet with the key's four octets |
| Frames.ShiftIsIndex | include/websocket/WsFrame.h:62 | at every index, `(key >> ((3 - i % 4) * 8)) & 0xFF` is octet `i % 4` of the big-endian key |
| Frames.MaskTwice | include/websocket/WsFrame.h:59-65 | masking twice with one key gives the data back |
| Frames.KeyOctetsRoundTrip | include/websocket/WebSocket.h:333-336 | the key assembled from four octets is written back as those octets |
| Frames.KeyRoundTrip | include/websocket/WsFrame.h:50-55 | the four octets written for a key spell that key |
| Bytes.BigEndianDecodes | include/websocket/WebSocket.h:322-326 | reading a big-endian number back gives the number, for every width that holds it |
| Bytes.FromBigEndianEncodes | include/websocket/WebSocket.h:317-327 | every octet string is the big-endian form of the number it spells |
| FrameReader.FillHeader | include/websocket/WebSocket.h:273-308 | the header buffer never needs more than its 14 octets and ends up holding exactly the header, the rest of the stream untouched; it fails exactly when the stream ends inside the header |
| FrameReader.DecodeHeader | include/websocket/WebSocket.h:311-338 | the length and the key decoded from the buffer are those the header spells, non-minimal forms included |
| FrameReader.Unmask | include/websocket/WebSocket.h:351-361 | unmasking in place is masking with the four key octets |
| FrameReader.ReadFrame | include/websocket/WebSocket.h:278-361 | one iteration of the read loop takes exactly the frame at the front of the stream and leaves what follows it, or fails when the frame is incomplete |
| FrameReader.HeaderIsLocal | include/websocket/WebSocket.h:289-327 | a complete header reads the same whatever follows it |
| FrameCodec.HeaderDecodes | include/websocket/WebSocket.h:281-338 | the parser sees in a written header the flags, length and key that were written |
| FrameCodec.WireFlags | include/websocket/WsFrame.h:25-48 | the first octet on the wire holds FIN, the three RSV bits and the opcode, each in its place; the second the mask bit and the length code, 126 from 126 octets on and 127 from 65536 on |
| FrameCodec.WireLength | include/websocket/WsFrame.h:40-47 | an extended length is the number its two or eight octets spell, most significant first |
| FrameCodec.WireKey | include/websocket/WsFrame.h:50-55 | the last four header octets of a masked frame are the key shifted right by 24, 16, 8 and 0 bits |
| FrameCodec.WirePayloadOctets | include/websocket/WsFrame.h:59-65 | payload octet i is on the wire as it is, or combined with the key shifted right by (3 - i mod 4) octets, as in section 5.3 of RFC 6455 |
| FrameCodec.ReadForm | include/websocket/WebSocket.h:279-349 | on any octets: how long a header the parser waits for, how long a payload, and what it takes from the two first octets |
| FrameCodec.ReadPayload | include/websocket/WebSocket.h:340-361 | on any octets: each payload octet, combined with header octet i mod 4 of the last four when masked |
| FrameCodec.DecodeEncode | include/websocket/WebSocket.h:277-361 | parsing inverts writing for every frame with a 4-bit opcode, in all three length classes, masked or not, whatever octets follow; RSV bits are dropped |
| FrameCodec.PrefixFree | include/websocket/WsFrame.h:20-68 | no frame's wire form is a proper prefix of another's, and equal wire forms carry the same frame |
| FrameCodec.ReencodeExactly | include/websocket/WsFrame.h:20-68 | writing a parsed frame reproduces its octets if and only if the RSV bits were zero and the length form was minimal |
| FrameCodec.DecodeStream | include/websocket/WebSocket.h:277-364 | a concatenation of written frames parses to exactly those frames, in order, followed by what the tail holds |
| FrameCodec.UniqueDecodability | include/websocket/WsFrame.h:20-68 | two frame lists with the same wire form carry the same frames |
| ClientFrames.ReadFrame | src/websocket_client.cpp:196-274 | the client's reader returns or throws as `ClientParse` says on every stream, and consumes exactly the frame it returns |
| ClientFrames.ReadLength | src/websocket_client.cpp:243-252 | both extended lengths are read big-endian from exactly their octets |
| ClientFrames.ClientThrows | src/websocket_client.cpp:221-273 | on any octets: which of its exceptions the client's reader throws, in the order of its tests, and when it throws none |
| ClientFrames.UnmaskWith | src/websocket_client.cpp:266-269 | the in-place loop over a four-octet key array masks octet i with key octet i mod 4 |
| ClientFrames.DecoderAgreement | src/websocket_client.cpp:196-274 | on arbitrary octets the client reads a frame if and only if the server's parser reads one the client accepts; then both consume the same octets and see the same fin, opcode and payload |
| ClientFrames.ClientDecodes | src/websocket_client.cpp:196-274 | the client reads every acceptable written frame back, whatever octets follow |
| ClientFrames.MakeFrameText | src/websocket_client.cpp:163-194 | octet for octet what the frame writer produces for the masked FIN text frame whose 32-bit key spells the four random octets big-endian |
| ClosePayloads.BuildClosePayload | include/websocket/ws_helpers.h:63-74 | the payload is the big-endian code and the first 123 octets of the reason |
| ClosePayloads.ClosePayloadForm | include/websocket/ws_helpers.h:63-74 | the code's high octet, its low octet, then the first 123 octets of the reason, one by one |
| ClosePayloads.BuiltParsesBack | include/websocket/WebSocket.h:448-461 | every built payload has 2 to 125 octets and parses back to its code and its truncated reason |
| ClosePayloads.EchoExactly | include/websocket/WebSocket.h:448-461 | echoing a received payload reproduces it if and only if it has 2 to 125 octets |
| ClosePayloads.CloseFrameIsShort | include/websocket/WebSocket.h:487-497 | a Close frame is always written in the one-octet length form |
| Receiver.FrameBody.Append | include/websocket/ws_helpers.h:38-47 | appends the whole payload or, when the limit forbids it, nothing, and says which |
| Receiver.FrameBody.Start | include/websocket/ws_helpers.h:30-36 | assembling, with the opcode and an empty message |
| Receiver.FrameBody.Reset | include/websocket/ws_helpers.h:24-28 | back to the initial value, the limit kept |
| Receiver.Connection.Close | include/websocket/WebSocket.h:73-92 | the first call closes the socket, calls the handler and the cleanup, in this order; every later call does nothing |
| Receiver.Connection.SendCloseWithReason | include/websocket/WebSocket.h:487-497 | queues one Close frame with the code and the truncated reason, and throws exactly when its write does |
| Receiver.Connection.HandleCloseFrame | include/websocket/WebSocket.h:448-461 | echoes the Close, then closes with its code and reason, 1000 when it carries none; when the echo's write throws nothing more happens, and when another coroutine closed before, its own close does nothing |
| Receiver.Connection.HandleParsedFrame | include/websocket/WebSocket.h:367-446 | on an open connection or one another coroutine closed meanwhile: every branch, error reports and the missing return after a stray continuation included, has exactly the effects `Handle` lists, or those up to the first reply whose write throws |
| Receiver.Connection.DoReadLoop | include/websocket/WebSocket.h:270-365 | the loop over a socket has, in order, exactly the effects of handling the frames the stream parses to, and stops at the first Close, at the first reply whose write throws, or at the test at which it sees that another coroutine closed, between two frames or in the handling of one |
| Receiver.RunBytesIsRun | include/websocket/WebSocket.h:277-364 | reading a stream is handling the list of frames it parses to |
| Receiver.RunReceived | include/websocket/WebSocket.h:284-287 | RSV bits and keys play no part in handling |
| Receiver.RunEncoded | include/websocket/WebSocket.h:277-364 | reading the concatenated wire forms of any frames is handling those frames |
| Reception.PingPongTransparent | include/websocket/WebSocket.h:378-394 | on every frame list, malformed ones included, removing all Pings and Pongs changes neither the deliveries nor the body nor whether the connection closes |
| Reception.InsertPingPong | include/websocket/WebSocket.h:378-394 | inserting or deleting one Ping or Pong anywhere changes no delivery |
| Reception.AlwaysBounded | include/websocket/ws_helpers.h:38-47 | on every frame list the buffer and each delivered message stay within 10 MiB |
| Reception.DataMidMessage | include/websocket/WebSocket.h:405-409 | a data frame inside a message queues one 1002 Close and otherwise changes nothing that follows |
| Reception.FinCloseEffects | include/websocket/WebSocket.h:448-461 | a FIN Close with a code and a reason: the first 125 payload octets are sent back, the socket is closed, the handler gets that code and the whole reason, and the cleanup runs, in this order |
| Reception.ShortCloseEffects | include/websocket/WebSocket.h:449-460 | a FIN Close shorter than two octets counts as 1000 without a reason |
| Reception.FragmentedControl | include/websocket/WebSocket.h:379-400 | a fragmented Ping, Pong or Close is reported to the peer and to the handler with 1002 and its text, and does nothing else |
| Reception.DataInsideMessage | include/websocket/WebSocket.h:405-409 | so is a data frame inside a message |
| Reception.DataEffects | include/websocket/WebSocket.h:410-445 | what a data frame outside a message and a continuation inside one do: refused with 1009 beyond a limit that is not 0, else delivered at FIN, else buffered |
| Reception.StrayContinuation | include/websocket/WebSocket.h:426-443 | a continuation outside a message is reported with 1002 and then treated as inside one |
| Reception.UnknownOpcode | include/websocket/WebSocket.h:378-446 | an opcode none of the six has no effect |
| Reception.CutAtFailure | include/websocket/WebSocket.h:371-402 | when the write of one reply throws, everything up to the queueing of that reply happens and nothing behind it |
| Reception.UncutWithoutFailure | include/websocket/WebSocket.h:371-402 | when no reply's write throws everything happens |
| Reception.RunUntilFront | include/websocket/WebSocket.h:277 | a close by another coroutine seen between two frames leaves exactly the effects of the frames before it |
| Reception.CloseMeanwhile | include/websocket/WebSocket.h:73-79 | a Close in whose handling another coroutine closes is still answered, and that is all |
| Reception.EarlyStop | include/websocket/WebSocket.h:277-364 | whatever stops the loop early, what was delivered and what was queued are prefixes of those of the whole stream |
| Reception.RunStopsAtClose | include/websocket/WebSocket.h:395-403 | on every frame list the first FIN Close is answered and closes the connection after everything before it was handled; no other frame closes it, and nothing behind it is handled |
| Reception.RunContinuation | include/websocket/WebSocket.h:425-445 | continuation frames deliver what was buffered followed by all their payloads, once, at the FIN frame |
| Reception.RunTransmissions | include/websocket/WebSocket.h:404-445 | every fragmentation of every message list within the limit is delivered exactly, in order, and the body is reset after it (section 5.4 of RFC 6455) |
| Reception.PongsQueued | include/websocket/WebSocket.h:463-465 | one Pong per FIN Ping, with the same payload, in order, and nothing else queued |
| Reception.ReceiveRefinement | include/websocket/WebSocket.h:270-446 | receive refinement: messages within the limit, fragmentation, masks, keys and interleaved FIN Pings and Pongs are arbitrary; the octet stream delivers exactly the messages and queues exactly the Pongs |
| Oversize.RunParts | include/websocket/WebSocket.h:404-445 | the frames of one message of any size deliver what is left of it, whether the body was assembling or not, and what follows is handled as from a reset body |
| Oversize.AnySizeReception | include/websocket/WebSocket.h:370-445 | for messages of any size, in any fragmentation, with any masks and Pings and Pongs in between, the octet stream delivers in order exactly what is left of each, and ends reset and open |
| Oversize.KeptExactly | include/websocket/ws_helpers.h:38-47 | nothing is left of a message if and only if its last part is refused, all of it if and only if it is within the limit, otherwise a proper tail |
| Oversize.KeptIsFront | include/websocket/WebSocket.h:370-445 | what is left of all messages is the first k, whole, if and only if those are within the limit and the last part of every other is refused |
| Oversize.MessageOfAnySize | include/websocket/WebSocket.h:370-445 | on the wire: delivered whole if and only if within the limit, not at all if and only if the last part is refused, cut to a proper tail if and only if too big with a last part that is not refused |
| Oversize.OneFrame | include/websocket/WebSocket.h:271 | a message in one frame is delivered up to 10485760 octets and refused beyond |
| Oversize.TailIsDelivered | include/websocket/WebSocket.h:426-443 | two frames after which one octet of a message just refused is delivered as a message |
| ClientSession.HandleSend | include/websocket/WebSocket.h:367-446 | what the server does about one frame of each of the client's senders |
| ClientSession.SessionIsReceived | src/websocket_client.cpp:323-369 | any list of client sends, of any size and with any keys: the server delivers in order each message within its limit, reports each larger one, answers the first Close, closes once with its code, and ignores the rest |
| ClientReceiver.Client.TakeFrame | src/websocket_client.cpp:281-319 | one frame changes the assembling fields, and returns, continues or throws, as `Feed` says |
| ClientReceiver.FeedForm | src/websocket_client.cpp:281-319 | case by case: what each frame does to the assembling fields and what is returned |
| ClientReceiver.Client.ReadMessage | src/websocket_client.cpp:277-321 | returns the next complete message and leaves the stream right after its last frame, or throws |
| ClientReceiver.Client.ReceiveLoop | src/websocket_client.cpp:84-112 | sees all messages before the first exception, in order, and then stops |
| ClientReceiver.Client.SendText | src/websocket_client.cpp:68-82 | writes the masked text frame, or nothing once stopped |
| ClientReceiver.Client.SendBinary | src/websocket_client.cpp:323-344 | writes the masked binary frame, or nothing once stopped |
| ClientReceiver.Client.SendClose | src/websocket_client.cpp:346-369 | writes the masked Close frame with the code and no reason, or nothing once stopped |
| ClientReceiver.AllMessagesIsFeed | src/websocket_client.cpp:277-321 | reading messages off a stream is feeding the assembler the frames it parses to |
| ClientReceiver.ReadIsLocal | src/websocket_client.cpp:196-274 | a frame that has arrived is read the same whatever follows it |
| ClientReceiver.ArrivedMessagesArePrefix | src/websocket_client.cpp:277-321 | on arbitrary octets, the messages returned from what has arrived are a prefix of those of the whole stream |
| Agreement.ClientDecodesStream | src/websocket_client.cpp:196-274 | on a stream of written frames the client reads exactly the frames before the first Close or oversized one |
| Agreement.StepAgreement | include/websocket/WebSocket.h:404-445 | one frame keeps the two assemblers in touch; a legal one makes both deliver the same, any other ends a client's message beyond the server's limit or makes the server deliver what the client does not |
| Agreement.AssemblersAgreeExactly | src/websocket_client.cpp:290-319 | of the two assemblers, fed any frames but Close ones, malformed and oversized ones included: the client's reads to the end and returns exactly what the server delivers if and only if no data frame comes inside a message, every finished message is within the server's limit, and every FIN continuation outside a message is refused; they then stay in touch |
| Agreement.ReceiversAgree | src/websocket_client.cpp:277-321 | the same if and only if, for the octets of frames that the client's reader lets through, both reading from the start |
| Agreement.StrayContinuationIsDelivered | include/websocket/WebSocket.h:426-444 | an input on which they differ: the server delivers a continuation that continues nothing, the client does not |
| Agreement.NineMebibytes | src/websocket_client.cpp:259-261 | a message of 9 MiB in one frame, as octets: delivered by the server, not by the client |
| Agreement.ClientTransmissions | src/websocket_client.cpp:290-319 | of messages of any size, fragmented in any way, the client's assembler returns exactly those whose frames were all fed to it |
| Agreement.ClientReceives | src/websocket_client.cpp:196-321 | of the octets of messages of any size with Pings and Pongs in between, the client returns exactly the messages complete before the first frame above 8 MiB |
| Agreement.SameMessagesExactly | include/websocket/WebSocket.h:370-445 | on those octets the server delivers what the client returns if and only if those messages are within its limit and the last part of every other message is refused |
| Agreement.SameReadableMessages | include/websocket/WebSocket.h:370-445 | where no frame is above 8 MiB, the client returns every message and the server delivers the same if and only if none is above 10 MiB |
| IncrementalParsing.FrameParser.FrameLength | www/test_fin.js:142-154 | the length, put together from two 32-bit halves, and the payload offset of the frame in front, or not ready |
| IncrementalParsing.FrameParser.ParseFrame | www/test_fin.js:137-190 | one iteration emits the frame in front and drops exactly its octets, waits without a change, or destroys the socket on a masked frame |
| IncrementalParsing.FrameParser.ParseFrames | www/test_fin.js:135-192 | the loop emits the frames `ParseLoop` finds and leaves the rest in the buffer |
| IncrementalParsing.FrameParser.OnData | www/test_fin.js:131-133 | the data handler appends the chunk and parses; a destroyed socket emits nothing |
| IncrementalParsing.ParseOneIsLocal | www/test_fin.js:136-165 | once an iteration gets past waiting, later octets do not change it |
| IncrementalParsing.DrainContinues | www/test_fin.js:135-192 | parsing a longer stream continues where parsing its front stopped |
| IncrementalParsing.RestIsSuffix | www/test_fin.js:165 | what a pass leaves in the buffer is the unread end of what it was given |
| IncrementalParsing.CloseComesLast | www/test_fin.js:167-179 | a pass emits no Close but the one it returns at |
| IncrementalParsing.ChunkIndependent | www/test_fin.js:104-192 | every segmentation of a stream with no frame after a Close emits the frames of one pass over the whole, and leaves the same buffer unless a masked frame destroyed the socket |
| IncrementalParsing.ChunkIndependence | www/test_fin.js:104-192 | all segmentations of a stream emit what one pass emits if and only if no complete frame follows a Close |
| IncrementalParsing.PongBehindClose | www/test_fin.js:167-179 | four octets, a Close and a Pong, that emit one frame in one chunk and two in two |
| IncrementalParsing.ParsesServerFrames | www/test_fin.js:135-192 | unmasked frames of the server's writer are parsed as written |
| IncrementalParsing.ParsesServerStream | www/test_fin.js:135-192 | a stream of the server's frames with no Close but perhaps the last is emitted frame by frame, and nothing is left |
| IncrementalParsing.ParserAgreement | www/test_fin.js:137-165 | on arbitrary octets the parser finds a frame exactly when the server's parser finds an unmasked one, and both consume and see the same |
| IncrementalParsing.RefusesMasked | www/test_fin.js:145-160 | a masked frame is refused as soon as its extended length is there, and no other |
| IncrementalParsing.BuildFrame | www/test_fin.js:29-65 | octet for octet the frame writer's output, the eight-octet length written as two 32-bit halves |
| WriteQueue.Serialize | include/websocket/WebSocket.h:194-234 | the four senders' frames, written |
| WriteQueue.SendForm | include/websocket/WebSocket.h:194-234 | the frame of each sender, a Close octet by octet |
| WriteQueue.WriteChannel.Begin | include/websocket/WebSocket.h:247-254 | enqueues, and becomes the drainer exactly when there was none |
| WriteQueue.WriteChannel.Continue | include/websocket/WebSocket.h:263-267 | drops the written front, and clears `is_writing_` exactly when the queue is empty |
| WriteQueue.WriteChannel.Drain | include/websocket/WebSocket.h:256-267 | the loop writes what was queued and all that arrives in the rounds it makes, in order, until the queue is empty; it throws exactly at the first write that fails, and then the part taken is on the wire, that message and all behind it are queued, and `is_writing_` is set |
| WriteQueue.WriteChannel.DoWrite | include/websocket/WebSocket.h:247-268 | a sender that finds a drainer writes nothing; one that does not writes its frame first and then all that arrives meanwhile, until the queue is empty or the first write that fails |
| WriteQueue.StartEnqueues | include/websocket/WebSocket.h:194-254 | a sender that starts enqueues exactly its own send behind everything before, unless it is a text or binary on a closed connection, and becomes the drainer exactly when it enqueued and there was none |
| WriteQueue.SpawnIsFree | include/websocket/WebSocket.h:108-136 | any send can be handed to a sender at any time, which then waits with just that send |
| WriteQueue.SocketIsFree | include/websocket/WebSocket.h:261 | the socket may take any part of what is left of the front, and any write may fail |
| WriteQueue.PushedAreStarted | include/websocket/WebSocket.h:194-254 | on every run what is enqueued is what the senders started were spawned with, in start order, less the texts and binaries started after closing; on a run without closing, all of it |
| WriteQueue.StepKeeps | include/websocket/WebSocket.h:247-268 | every step of every coroutine, partial and failed writes included, keeps the invariant: one holder of `is_writing_`, the queue a suffix of what was enqueued, the wire ending inside the queue's front |
| WriteQueue.WireNeverInterleaves | include/websocket/WebSocket.h:247-268 | in every run there is at most one drainer and the wire is a prefix of all frames in enqueue order |
| WriteQueue.IdleMeansSent | include/websocket/WebSocket.h:256-266 | `is_writing_` false implies an empty queue and every enqueued octet on the wire |
| WriteQueue.DrainIsEnabled | include/websocket/WebSocket.h:256-264 | while the socket is open and nothing failed, a non-empty queue can always move |
| WriteQueue.DrainTerminates | include/websocket/WebSocket.h:256-264 | every drain step lowers the number of pending octets and frames, so draining ends whatever the socket takes at a time |
| WriteQueue.QuiescentMeansSent | include/websocket/WebSocket.h:256-267 | when no drain step is left everything enqueued is on the wire |
| WriteQueue.ReturnMeansFlushed | include/websocket/WebSocket.h:94-106 | a sender returns with everything enqueued on the wire if and only if it found no drainer; so a Close frame is flushed before closing only then |
| WriteQueue.CloseFrameIsLost | include/websocket/WebSocket.h:94-106 | for every text and reason there is a run in which `close_async` returns from sending and closes, and however it goes on the Close frame is never sent |
| WriteQueue.FailureIsFinal | include/websocket/WebSocket.h:254-266 | after a failed write `is_writing_` stays set and no octet is written again, though frames are still enqueued |
| EndToEnd.WholeStream | src/websocket_client.cpp:277-321 | out of all enqueued octets the client gets the messages before the first Close or oversized frame |
| EndToEnd.EndToEndOrder | include/websocket/WebSocket.h:194-268 | on every run of any number of senders, with partial writes, failures and closing, and for every part of the wire that arrived, the messages the client returned are a prefix of those of the senders admitted, in start order; on a run without closing, of all senders started |
| EndToEnd.EndToEndComplete | include/websocket/WebSocket.h:194-268 | once the queue is idle and its octets arrived, the client returned the messages of all senders admitted if and only if none started from the first Close or oversized frame on; on a run without closing every sender started was admitted |
| Duplex.PongsQueuedAreDue | include/websocket/WebSocket.h:378-386 | on every frame list the Pongs the read loop queues are the first of those due, one per FIN Ping with its payload |
| Duplex.ActKeeps | include/websocket/WebSocket.h:247-268 | no step of any sender or of the socket puts the read loop's replies out of order |
| Duplex.ReplyKeeps | include/websocket/WebSocket.h:363 | nor does the read loop's next reply, which it starts only after the last one returned |
| Duplex.LoopIsFree | include/websocket/WebSocket.h:363 | the loop may start its next reply whenever the last one returned |
| Duplex.FullDuplex | include/websocket/WebSocket.h:194-446 | for any octets the server read, on every run of its read loop and any number of senders, and for every part of the wire that arrived: the Pongs the client read are the first of those due for the Pings in what the server read, and the messages it returned the first of those of the senders admitted |
| CloseRace.StepKeeps | include/websocket/WebSocket.h:73-92 | every step of every caller, acceptor and registration keeps the invariant that ties effects, winner and registry |
| CloseRace.StepsAreFree | include/websocket/WebSocket.h:73-92 | no step of a caller, of the acceptor or of the registry waits for anything but its own turn |
| CloseRace.EffectsInOrder | include/websocket/WebSocket.h:80-91 | in every state the cleanup came after the handler, the handler after the shutdown, and all after the closing |
| CloseRace.AtMostOnce | include/websocket/WebSocket.h:73-92 | over every interleaving nothing is shut down, reported or cleaned up twice and no two callers win |
| CloseRace.ExactlyOnce | include/websocket/WebSocket.h:73-92 | once all calls on a connection returned, exactly one caller ran shutdown, handler and cleanup, all others returned early, and the connection is closed and unregistered |
| CloseRace.IdsAreDistinct | src/server.cpp:60-77 | no two accepted connections share an id, and the registry files each under its own |
| CloseRace.RegisteredButClosed | include/server.h:167-175 | a registered id whose socket is closed has a winner that has not yet cleaned up |
| CloseRace.UnregisteredMeansCleanedUp | include/server.h:172-175 | an id leaves the registry only through its winner's cleanup |
| CloseRace.ClosedForever | include/websocket/WebSocket.h:74-78 | along every run `state_` never returns to open, the winner never changes, and no effect is undone |
| CloseRace.SnapshotIsClosed | src/server.cpp:590-605 | whatever runs in between, after the calls of `close_websockets` returned, each connection of its snapshot is closed, and still registered only if another caller has yet to clean up |
| CloseRace.CloseRunEffect | include/websocket/WebSocket.h:73-92 | one uninterrupted call has every effect once if the connection was open and none otherwise |
| CloseRace.Server.DoAccept | src/server.cpp:60-77 | until an accept is aborted the loop hands out the ids following the counter, one by one; it is a run of Accept steps |
| CloseRace.AcceptedForm | src/server.cpp:68-69 | the connections accepted are those in front of the first abort |
| CloseRace.Server.RegisterWebsocket | include/server.h:167-170 | the state machine's Register |
| CloseRace.RemoveUndoesRegister | include/server.h:167-175 | removing an id after registering it gives back the registry there was |
| CloseRace.CleanupUnregistersForGood | include/server.h:172-175 | the winner's cleanup takes out its id, which was still there, and no other, and on no run does that id come back |
| CloseRace.Server.Close | include/websocket/WebSocket.h:73-92 | the method's field updates are the state machine's steps of one call |
| CloseRace.Server.CloseWebsockets | src/server.cpp:590-605 | the loop over the snapshot is a run of the state machine; it leaves every snapshot connection closed and registered only those some other caller had closed before |
| Base64.DecodeEncode | include/http/utils.h:7-24 | decoding inverts the encoding of section 4 of RFC 4648 for every input |
| Base64.Alphabet | include/http/utils.h:8 | the 64 characters by their codes |
| Base64.GroupSpelled | src/websocket_client.cpp:121-128 | the four values of a group are the 24 bits of its octets, six at a time |
| Base64.EncodeForm | include/http/utils.h:13-22 | group by group: four characters for three octets, and one or two '=' when fewer are left |
| Base64.EncodeLength | include/http/utils.h:7-24 | the encoding of n octets has 4 * ceil(n / 3) characters |
| Base64.EncodeAppend | include/http/utils.h:13-20 | whole groups are encoded independently of what follows |
| Base64.StraddlingBits | include/http/utils.h:14-17 | the digits read off the accumulator do not depend on what its wrapping 32-bit shift pushed out |
| Base64.Absorb | include/http/utils.h:13-20 | one octet taken in emits exactly the digits it completes |
| Base64.EncodeAccumulating | include/http/utils.h:7-24 | the accumulator loop with its 32-bit wrap-around is that encoding, for every input |
| Base64.EncodeGrouped | src/websocket_client.cpp:114-131 | the client's loop is the encoding of the input padded with zero octets to a multiple of three |
| Base64.GroupedIsBase64Exactly | src/websocket_client.cpp:114-131 | that is base64 if and only if the length is a multiple of three: its padding branches are never taken |
| Base64.HandshakeKeyIsNotSixteenOctets | src/websocket_client.cpp:133-139 | the sixteen-octet handshake key therefore decodes to eighteen octets |
| Query.SplitTarget | include/http/utils.h:68-98 | path and parameters of every target, the loop terminating on every input |
| Query.WholePath | include/http/utils.h:71-75 | a target without '?' is all path and has no parameters |
| Query.PathBeforeQuery | include/http/utils.h:77-78 | the path ends at the first '?', whatever follows |
| Query.SplitQuery | include/http/utils.h:80-97 | the loop emplaces, in order, exactly the pairs between the separators, empty parameters skipped |
| Query.QueryForm | include/http/utils.h:82-96 | parameters end at each '&', and an empty one gives no pair |
| Query.ParamForm | include/http/utils.h:88-92 | a parameter is split at its first '='; one without is a key with an empty value |
| Query.CollectValues | include/http/utils.h:93 | after emplacing pairs, each key has its old values followed by its new ones in order |
| Query.PairsJoined | include/http/utils.h:80-97 | splitting a joined list of clean pairs gives the list |
| Query.QueryRoundTrip | include/http/utils.h:68-98 | for a path without `?` and clean pairs, the path, the pairs and the values of every key come back |
| Query.CountIsOccurrences | src/http/request.cpp:28-31 | a key has as many values as positions at which it occurs |
| Query.ValuesAreOccurrences | src/http/request.cpp:19-26 | the id-th value of a key is what its id-th occurrence is paired with |
| Query.GetParamValue | src/http/request.cpp:19-26 | what the id-th occurrence of the key in the emplaced pairs is paired with, empty when there are not that many |
| Query.GetParamValueCount | src/http/request.cpp:28-31 | the number of positions at which the key occurs in the emplaced pairs |
| HttpRequest.CaseInsensitiveEqual | include/http/request.h:33-46 | true exactly for two texts of one length that differ at most by a capital for its small letter |
| HttpRequest.LowerForgetsCase | include/http/request.h:24-29 | two texts are lowered to the same if and only if they differ at most in case |
| HttpRequest.PutForm | include/http/utils.h:127 | assigning a header is seen under its name in any case, keeps the spelling first used, and touches no other |
| HttpRequest.AnyOrderRebuilds | include/http/request.h:48 | a header map is rebuilt from any listing of its entries |
| HttpRequest.MethodRoundTrip | src/http/request.cpp:52-74 | every method is recognised by the name printed for it |
| HttpRequest.MethodNames | src/http/request.cpp:52-74 | the seven names, and that every other one is unknown |
| HttpRequest.ParsesDecimal | src/http/request.cpp:34-45 | the content length parser reads back every 64-bit number as printed |
| HttpRequest.AnyCaseContentLength | src/http/request.cpp:34-45 | a header spelled "content-length" in any case, with a number as its value, announces that many octets |
| HttpRequest.NoContentLength | src/server.cpp:216 | without one, or with one that is no number, the body has none |
| HttpRequest.UnsignedForm | src/http/request.cpp:38-41 | a number is its digits, perhaps behind blanks and a plus sign |
| HttpRequest.NegativeForm | src/http/request.cpp:38-41 | behind a minus sign it is taken modulo two to the 64th |
| HttpRequest.TrailingGarbage | src/http/request.cpp:40 | anything behind the digits makes it none |
| HttpRequest.OutOfRange | src/http/request.cpp:42-44 | so does a value of more than 64 bits |
| HttpRequest.DecimalForm | src/http/request.cpp:39 | digits are decimal |
| HttpRequest.ToString | src/http/request.cpp:87-105 | the printed text, headers in any iteration order, Content-Length added exactly for a non-empty body without one |
| HttpRequest.PrintedForm | src/http/request.cpp:87-105 | the text of a request with one header, part by part |
| HttpRequest.ParseHttpRequest | include/http/utils.h:100-129 | the parser's loops compute `ParseRequest` on every text |
| HttpRequest.RequestLineParses | include/http/utils.h:104-110 | a printed request line is split back into its three words |
| HttpRequest.RequestLineForm | include/http/utils.h:104-112 | any blanks before, between and after the three words of the first line make no difference |
| HttpRequest.HeaderLineParses | include/http/utils.h:114-128 | a printed header line is read back as its key and value |
| HttpRequest.HeaderLineForm | include/http/utils.h:114-127 | a header line with any blanks around key and value, ended by a newline with or without a carriage return |
| HttpRequest.LineWithoutColon | include/http/utils.h:118-119 | a line without a colon is passed over |
| HttpRequest.LastLine | include/http/utils.h:114 | a last line needs no newline |
| HttpRequest.TrimForm | include/http/utils.h:52-65 | trimming takes off all blanks at both ends and nothing else |
| HttpRequest.BlankCodes | include/http/utils.h:54 | a blank is one of the codes 9 to 13 and 32 |
| HttpRequest.BlankAfterHeaders | include/io_helpers.h:40-48 | the first blank line of a printed request is the one after its headers |
| HttpRequest.SentHeaders | src/http/request.cpp:92-98 | what is printed rebuilds the sender's header map, plus Content-Length if added, and announces the body's length |
| HttpRequest.BlankIsLocal | include/io_helpers.h:44-45 | a blank line that has arrived stays the first one, whatever follows |
| HttpRequest.FirstBlankLine | include/io_helpers.h:43-45 | what ends the header section is a blank line, and none comes before it |
| HttpRequest.ReadForm | src/server.cpp:208-222 | a text without a blank line is no request; a body cut short is an exception or what there is |
| HttpRequest.RequestRoundTrip | src/server.cpp:208-222 | the printed text of a request stands for that request: method, target, version, parameters, body and header map, for all clean headers in any order (sections 3, 5 and 6.2 of RFC 9112) |
| RequestReader.StreamBuf.TakeFront | include/io_helpers.h:24-35 | the first n characters, or all there are, leave the buffer |
| RequestReader.ReadHeaderSection | include/io_helpers.h:40-48 | under any split into reads: everything up to the first blank line and not a character more, or an exception |
| RequestReader.ReadBody | include/io_helpers.h:50-91 | under any split into reads: the first content-length characters of buffer then socket; at a premature end an exception, or all there was |
| RequestReader.DoRead | src/server.cpp:208-222 | computes `ReadRequest` of everything that arrives, under any split into reads |
| RequestReader.PrintAndRead | src/server.cpp:208-222 | a request printed with `to_string`, headers in any order, and read by `do_read` under any split into reads is recovered, with Content-Length added when it was missing |
| Mounts.StrictTotalOrder | include/server.h:36-42 | the comparator is irreflexive, total and transitive |
| Mounts.LexForm | include/server.h:40 | of two texts of one length the lesser has the lesser character where they first differ |
| Mounts.EmplaceKeeps | src/server.cpp:579-583 | mounting keeps the map ordered and adds the entry unless its prefix is taken |
| Mounts.StaticMounts.MountStatic | src/server.cpp:579-583 | canonicalises a relative root, and inserts at the place the comparator gives or leaves the map alone |
| Mounts.StoredRootForm | src/server.cpp:580-581 | only a root that is neither empty nor absolute is canonicalised |
| Mounts.StaticMounts.Scan | src/server.cpp:543-554 | the first match of the ordered scan, an empty prefix counting as none |
| Mounts.ScanFindsLongest | src/server.cpp:546-554 | that match is the unique longest mounted prefix of the path, and there is none only if no non-empty prefix matches |
| Mounts.MountOrderIrrelevant | src/server.cpp:546-583 | the order in which distinct prefixes were mounted makes no difference |
| Transfer.SendFile | src/server.cpp:326-351 | for every sequence of answers, sent plus remaining is the size and what is sent is the front of the file, as long as size, file and the answers before the first error or empty one allow, exactly; success is reported exactly when nothing remains; however often the kernel asks to wait, as many moving answers as there are octets send the whole |
| Transfer.BudgetStops | src/server.cpp:331-345 | an error or an empty answer ends the transfer at once |
| Transfer.WriteFile | src/server.cpp:421-441 | for every sequence of reads and writes what is sent is a front of the file; sent plus remaining is the size if and only if no write that is reached is cut short, which is also when the loop throws; complete exactly when the whole file went out, and so whenever reads and writes progress |
| Transfer.ChunkForm | src/server.cpp:424-435 | a round reads at most 65536 octets, what remains, and what the file gives |
| Transfer.CountedButNotSent | src/server.cpp:428-440 | for every non-empty file there are answers under which a write is cut short |

## Left out

- SHA-1 and `ws_accept_key`: the hash is an external header; only the base64 step is modelled.
- asio, TLS, executors, cancellation slots and signals, worker threads and the liveness of `stop()`.
- Keep-alive and pipelining: `do_read` starts each request with a fresh buffer (src/server.cpp:210), so the round trip is stated for one request with nothing after it.
- `Response`, `HttpClient`, routing, configuration, reason phrases, benchmarks and pages.
- The file system side of `serve_static` and `MountStatic`: existence checks, MIME types and how a path is canonicalised. Only the mount map and its scan are modelled.
- UTF-8 validation, required masks and the range of close codes: the code does not check them.
- `CaseInsensitiveHash`: the header map is modelled by its lowered keys, which is what equality and hash both go by; bucket order is the arbitrary iteration order of `ToString`.
- The protocol-error paths of the read loop call `on_close` without `close()`; the once-only theorems of `CloseRace` are about the `close()` path.
- CloseRace.Server.Close: the method runs uninterrupted, without the mutex or the atomic; the interleavings are covered by the state machine whose steps it makes.
- Duplex.FullDuplex: the Close frames of the read loop are ordered with the rest but not traced to the client, which throws on the first it reads.
- WriteQueue.WriteChannel.DoWrite: one sender's view, the others being a script of arrivals; all senders together are the state machine built from the same `Enter` and `Resume`.
- IncrementalParsing.BuildFrame: JavaScript numbers are taken as exact integers; above 2^53 the program would round.
- IncrementalParsing.FrameParser.FrameLength: the same, for the length read as two 32-bit halves.
- IncrementalParsing.FrameParser.OnData: the handshake response that precedes the frames is not modelled.
- Base64.EncodeGrouped: the operands of `|` are evaluated left to right, which the language leaves open.
- Transfer.SendFile: waiting for the socket is an answer of the script; a script that runs out leaves the coroutine suspended.
- RequestReader.DoRead: reads that fail for another reason than the end of the stream, and the text buffered behind the request, which the next `do_read` does not see.
- Transfer.WriteFile: the head of the response, written before the loop.
- CloseRace.Server.DoAccept: an accept that fails for another reason than an abort hands on a dead socket under the next id; it is not told from a live one.
