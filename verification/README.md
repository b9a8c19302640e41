# rs-netty: wire codecs, connection runtimes and server lifecycle

A Dafny 4.11 model of the parts of rs-netty that decide what goes over the wire and when: the
codecs, the TCP connection task, the UDP socket task, and the TCP server with its shutdown.
`dafny verify dfyconfig.toml` checks everything.

## How it is organised

Codecs are described twice. A function on bytes says what one decoder call does (`Step`: ask for
more, take an item, or fail) and what an encoder writes; laws about these functions are lemmas. The
methods beside them are the program's own loops and in-place updates - `BytesMut`, the MQTT
`Reader`, the unmasking loop, the chunk loop - and each is proved to do what the function says.

- `Core`, `Numbers`, `Utf8`, `Search`, `Framing`: bytes, integers, text, pattern search, incremental decoding.
- `VarInt`, `MqttTypes`, `MqttWire`, `MqttBodies`, `MqttFrames`, `MqttReader`, `MqttCodec`: MQTT 5.0;
  `MqttLayout` describes the packets a second time, in the literal bytes of the standard, and `MqttAcceptance` says
  exactly which bytes are accepted as a packet.
- `WebSocketFrames`, `HttpText`, `Http`, `HttpPrinting`, `HttpCodec`, `HttpWs`: WebSocket frames,
  HTTP/1.1 requests and responses, the opening handshake, the shared-port codec. `WebSocketVerdicts`, `HttpTextLaws`,
  `HttpLaws` and `HandshakeLaws` say exactly what is accepted, refused and answered.
- `LengthField`, `Delimiter`, `Line`, `Codecs`: the other framing codecs, and chunking invariance of all of them.
- `StreamSpec` tells a TCP connection message by message, without buffers; `StreamLaws` proves
  conservation, order, acknowledgements and independence of read boundaries about it;
  `StreamEndings` says what ends a connection and what each event does over whole runs;
  `StreamRuntime` is the connection task with its buffers, outbox and polled handler, proved against it.
- `Upgrade`: the connection loop, the shared-port codec and the HTTP/WebSocket router together.
- `DatagramSpec`, `DatagramEndings`, `DatagramRuntime`: the same for the UDP socket task.
- `Server`, `ServerLaws`: accept loop, connection tasks, watch channel and lifecycle hooks as one interleaved machine.

Environment: a stream is a byte sequence with room for so many bytes, after which a write fails
part-way; a UDP socket sends so many datagrams and then fails. A handler is any function from the
number and content of a message to a script of polls, staged writes, flushes, a close request and a result;
a codec with its stages is any state with decode, stage and encode functions. Select picks any
ready event, so a run is any list of events. `usize` is 64 bits wide.

## Where code and documentation differ

The model follows the code. An oversize datagram is promised to be rejected before the pipeline
runs, but with a read buffer no larger than the limit it is cut and handled
(`DatagramSpec.OversizeIsNoticedIff`). The frame limit counts the whole buffer, complete frames included
(`Framing.LimitTripsIff`). "Too large" can be reported before a multi-byte
delimiter or blank line is complete (`Delimiter.VerdictIsFinalIff`, `Http.HttpVerdictIsFinalIff`).
A maximum packet size beyond the protocol's garbles huge MQTT packets (`MqttFrames.FrameRoundTrip`).

## Model

| member | source | states |
|---|---|---|
| Framing.ChunkingInvariance | src/transport/tcp/connection.rs:269-306 | decoding a stream read by read gives the items, the error and the leftover of decoding it whole, for any decoder whose verdicts stand, unless the buffer limit trips |
| Framing.StableDecodersIgnoreReadBoundaries | src/transport/tcp/connection.rs:236-309 | any two ways of cutting the same bytes into reads give the same items, error and leftover |
| Framing.FramesDecodeInOrder | src/transport/tcp/connection.rs:269-306 | concatenated frames decode one by one, in order, in front of any bytes, when each frame does |
| Framing.LimitTripsIff | src/transport/tcp/connection.rs:257-267 | the buffer limit trips exactly when some read, together with the incomplete frame in front of it, exceeds it, complete frames in that read included |
| Codecs.MqttIgnoresReadBoundaries | src/codec/mqtt.rs:282-323 | the MQTT decoder makes progress and does not depend on read boundaries |
| Codecs.WebSocketIgnoresReadBoundaries | src/codec/websocket.rs:711-793 | likewise the WebSocket frame decoder |
| Codecs.LengthFieldIgnoresReadBoundaries | src/codec/length_field_based_frame.rs:140-175 | likewise the length-field decoder, under every configuration |
| Codecs.LinesIgnoreReadBoundaries | src/codec/line.rs:39-68 | likewise the line decoder |
| Codecs.OneByteDelimitersIgnoreReadBoundaries | src/codec/delimiter_based_frame.rs:65-91 | likewise the delimiter decoder when every delimiter is one byte |
| Codecs.FrameLimitCountsWholeBuffer | src/transport/tcp/connection.rs:257-267 | an instance: frames that each fit are refused when one read brings both |
| VarInt.ReadIffEncoded | src/codec/mqtt.rs:1290-1305 | reading succeeds with a value and a rest exactly when the input is the value's one encoding followed by the rest, and only for 0..268435455 |
| VarInt.PrefixIffEncoded | src/codec/mqtt.rs:1141-1159 | the same for the fixed-header reader: each value has exactly one accepted prefix |
| VarInt.ReadersAgree | src/codec/mqtt.rs:1141-1168 | the fixed-header reader and the in-packet reader agree on every input, and differ only in waiting where the other fails |
| VarInt.PrefixStable | src/codec/mqtt.rs:1141-1159 | a verdict on the prefix is final |
| VarInt.PrefixOfEncodingIsIncomplete | src/codec/mqtt.rs:1141-1159 | every strict prefix of an encoding is "need more" |
| VarInt.EncodeMonotone | src/codec/mqtt.rs:1170-1177 | a larger value never has a shorter encoding |
| VarInt.Write | src/codec/mqtt.rs:1190-1210 | the writing loop appends the encoding, or nothing and an encode error above the maximum |
| VarInt.Width | src/codec/mqtt.rs:1170-1177 | the width loop returns the length of the encoding |
| VarInt.DecodePrefix | src/codec/mqtt.rs:1141-1168 | the prefix loop, its accumulator and multiplier within bounds, returns what the prefix reader specifies |
| MqttFrames.FrameRoundTrip | src/codec/mqtt.rs:279-342 | an encoded packet followed by any bytes decodes to itself and its own length exactly when the body is within 268435455 bytes |
| MqttFrames.EncodedFrameRecovers | src/codec/mqtt.rs:279-1102 | with a configured maximum within the protocol's, every encodable packet of all 15 kinds, with any properties, decodes to itself in front of anything |
| MqttFrames.HugePublishIsGarbled | src/codec/mqtt.rs:326-341 | counterexample: a larger configured maximum lets a body of 2^32 bytes through with a truncated length |
| MqttFrames.PartialFrameWaits | src/codec/mqtt.rs:282-312 | every strict prefix of an encoding is "need more" with the buffer untouched |
| MqttFrames.NormalForm | src/codec/mqtt.rs:282-341 | any accepted packet re-encodes, under the same maximum and to no more bytes than were consumed, and that encoding decodes to the same packet |
| MqttFrames.PacketsDecodeInOrder | src/codec/mqtt.rs:279-342 | any list of packets, encoded one after another, decodes to that list |
| MqttFrames.MqttIsStable | src/codec/mqtt.rs:282-323 | every packet shortens the buffer and no verdict is changed by later bytes |
| MqttFrames.WrittenBodyReads | src/codec/mqtt.rs:344-471 | the body reader inverts the body writer for every packet kind and its flag bits |
| MqttFrames.ReadBodyWrites | src/codec/mqtt.rs:344-471 | conversely an accepted body is rewritten with the same kind and flags and no longer than it was |
| MqttBodies.WrittenConnectReads | src/codec/mqtt.rs:473-595 | CONNECT: reading inverts writing, with its flag bits, will, user name and password |
| MqttBodies.ReadConnectWrites | src/codec/mqtt.rs:473-595 | CONNECT: what is accepted can be written, no longer than it was |
| MqttBodies.FlagsIff | src/codec/mqtt.rs:488-511 | the connect flags byte is accepted exactly when it is the packing of legal flags |
| MqttBodies.WrittenConnAckReads | src/codec/mqtt.rs:597-614 | CONNACK: reading inverts writing |
| MqttBodies.ReadConnAckWrites | src/codec/mqtt.rs:597-614 | CONNACK: what is accepted can be written, no longer than it was |
| MqttBodies.WrittenPublishReads | src/codec/mqtt.rs:616-675 | PUBLISH: reading with the packet's own flags inverts writing |
| MqttBodies.ReadPublishWrites | src/codec/mqtt.rs:616-675 | PUBLISH: what is accepted can be written with the same flags, no longer than it was |
| MqttBodies.WrittenAckReads | src/codec/mqtt.rs:677-708 | the four acknowledgements: reading inverts writing, including the short forms |
| MqttBodies.ReadAckWrites | src/codec/mqtt.rs:677-708 | acknowledgements: every accepted long form is rewritten no longer |
| MqttBodies.WrittenSubscribeReads | src/codec/mqtt.rs:710-772 | SUBSCRIBE: reading inverts writing |
| MqttBodies.ReadSubscribeWrites | src/codec/mqtt.rs:710-772 | SUBSCRIBE: what is accepted can be written, no longer than it was |
| MqttBodies.ReadSubscriptionsIff | src/codec/mqtt.rs:715-741 | a list of filters and options is read exactly when it is the writing of that list |
| MqttBodies.OptionsIff | src/codec/mqtt.rs:718-738 | an options byte is accepted exactly when it is the packing of legal options |
| MqttBodies.WrittenUnsubscribeReads | src/codec/mqtt.rs:806-843 | UNSUBSCRIBE: reading inverts writing |
| MqttBodies.ReadUnsubscribeWrites | src/codec/mqtt.rs:806-843 | UNSUBSCRIBE: what is accepted can be written, no longer than it was |
| MqttBodies.WrittenCodesReads | src/codec/mqtt.rs:774-875 | SUBACK and UNSUBACK: reading inverts writing |
| MqttBodies.ReadCodesWrites | src/codec/mqtt.rs:774-875 | SUBACK and UNSUBACK: what is accepted can be written, no longer than it was |
| MqttBodies.WrittenReasonReads | src/codec/mqtt.rs:877-937 | DISCONNECT and AUTH: reading inverts writing, including the empty form |
| MqttBodies.ReadReasonWrites | src/codec/mqtt.rs:877-937 | DISCONNECT and AUTH: every accepted long form is rewritten no longer |
| MqttTypes.IdentifiersAgree | src/codec/mqtt.rs:939-1102 | the reader's table of the 27 property identifiers is the writer's |
| MqttWire.ReadPayloadIff | src/codec/mqtt.rs:1224-1305 | each value form is read exactly from the bytes that write it |
| MqttWire.WrittenPropertyReads | src/codec/mqtt.rs:939-1102 | reading a property inverts writing it |
| MqttWire.ReadPropertyWrites | src/codec/mqtt.rs:939-1102 | an accepted property, though its identifier is cut to a byte, is rewritten no longer than it was |
| MqttWire.WrittenPropertiesRead | src/codec/mqtt.rs:1179-1328 | a property section reads back when its length fits the protocol |
| MqttWire.ReadPropertiesWrite | src/codec/mqtt.rs:1179-1328 | an accepted property section is rewritten no longer than it was |
| MqttReader.Reader.ReadVariableInteger | src/codec/mqtt.rs:1290-1305 | the in-packet loop, its accumulator within 32 bits, consumes exactly what the specification reads |
| MqttReader.Reader.ReadProperties | src/codec/mqtt.rs:1307-1328 | the nested reader loop consumes exactly what the specification reads |
| MqttReader.WriteProperties | src/codec/mqtt.rs:1179-1188 | the property writing loop appends what the specification writes |
| MqttCodec.DecodePacket | src/codec/mqtt.rs:344-409 | dispatching over a reader advanced in place returns what the specification decodes |
| MqttCodec.EncodePacket | src/codec/mqtt.rs:411-471 | the writers append what the specification writes and return the packet's type and flag bits, or fail with only a partial tail |
| MqttCodec.MqttCodec.Decode | src/codec/mqtt.rs:282-323 | one decoder call returns, and leaves in the buffer, what one step of the specification says |
| MqttCodec.MqttCodec.Encode | src/codec/mqtt.rs:326-342 | one encoder call appends the specified frame, or fails |
| MqttLayout.FrameIsLaidOut | src/codec/mqtt.rs:326-342 | the encoder writes first byte, length and body in the bytes of the standard, exactly when the fields fit; it refuses the others with "encode", and bodies beyond the configured maximum with "too large" |
| MqttLayout.BodyIsLaidOut | src/codec/mqtt.rs:411-471 | every packet kind is written as an independent description in literal bytes lays it out: names, level, flags, order of fields, exactly when its fields fit |
| MqttLayout.PropertyIsLaidOut | src/codec/mqtt.rs:988-1102 | each of the 27 properties is written as its literal identifier and the bytes of its value, exactly when that value fits |
| MqttLayout.LaidOutFrameDecodes | src/codec/mqtt.rs:282-323 | a packet laid out so, in literal bytes, is decoded in front of anything |
| MqttAcceptance.AcceptedIff | src/codec/mqtt.rs:282-323 | a packet is decoded from the front of the buffer exactly when a frame of it stands there: its first byte, the shortest length of a body within the limit, and a body that spells it |
| MqttAcceptance.BodyIff | src/codec/mqtt.rs:344-409 | a body is accepted as a packet exactly when it spells that packet, in literal bytes, behind the first byte of its kind: nothing missing, nothing behind it, longer property identifiers and spelled-out reasons the only freedom |
| MqttAcceptance.ReadListIff | src/codec/mqtt.rs:939-1328 | a property list is read exactly when it is a list of identifiers whose low byte is the property's, each with the bytes of its value |
| MqttAcceptance.ReadReasonIff | src/codec/mqtt.rs:877-937 | reason code and properties are read exactly when they are left out, cut short, or spelled out |
| MqttLayout.AcceptedConnectOpens | src/codec/mqtt.rs:473-511 | an accepted CONNECT begins with 00 04 "MQTT" 05, the flags that say which fields follow, and its keep alive |
| MqttLayout.AcceptedFirstByte | src/codec/mqtt.rs:344-409 | an accepted packet begins with the one first byte of its kind, so reserved flag bits are enforced |
| MqttLayout.IdentifierIsCut | src/codec/mqtt.rs:939-943 | only the low eight bits of a property identifier count |
| MqttLayout.TooLongIsRefusedAtOnce | src/codec/mqtt.rs:282-300 | an announced length beyond the maximum is refused before any of the body has arrived |
| MqttLayout.MalformedFrameIsRemoved | src/codec/mqtt.rs:300-323 | a complete frame whose packet is malformed is removed and reported as a decode error |
| MqttLayout.PacketErrors | src/codec/mqtt.rs:344-409 | whatever is wrong with a packet, the error is a decode error |
| WebSocketFrames.MaskCancels | src/codec/websocket.rs:757-793 | masking twice with the same key is the identity at every length |
| WebSocketFrames.PayloadIff | src/codec/websocket.rs:866-926 | a payload decodes to a message exactly when the message encodes to that opcode and payload; close codes and UTF-8 included |
| WebSocketFrames.EncodedMessageRecovers | src/codec/websocket.rs:711-953 | without masks, every encodable message within the limit decodes to itself in front of anything |
| WebSocketFrames.AcceptedFrameIsCanonical | src/codec/websocket.rs:711-953 | conversely an accepted frame is the frame of its message and key byte for byte; unmasked, re-encoding gives exactly the bytes consumed |
| WebSocketFrames.MaskedMessageRecovers | src/codec/websocket.rs:757-793 | a frame masked with any key, as a client does, decodes to its message with masks required |
| WebSocketFrames.WsIsStable | src/codec/websocket.rs:711-793 | every frame shortens the buffer and no verdict is changed by later bytes |
| WebSocketFrames.UnmaskInPlace | src/codec/websocket.rs:786-791 | the in-place loop computes the masking function |
| WebSocketFrames.DecodeWebSocketFrame | src/codec/websocket.rs:711-793 | one decoder call does what one step of the specification says |
| WebSocketFrames.EncodeWebSocketMessage | src/codec/websocket.rs:795-953 | encoding appends the specified frame, or fails |
| WebSocketVerdicts.AcceptedIff | src/codec/websocket.rs:711-926 | a message is decoded from the front of the buffer exactly when its frame stands there, described in literal bytes, within the limit and masked if masks are required |
| WebSocketVerdicts.RefusedAs | src/codec/websocket.rs:711-864 | what becomes of every other buffer: which refusals come before the frame is complete, which error they report, and whether the frame is removed |
| WebSocketVerdicts.MasksAreEnforced | src/codec/websocket.rs:809-821 | where masks are required only masked frames are accepted, and a complete frame without one is a decode error |
| WebSocketVerdicts.MessageIsLaidOut | src/codec/websocket.rs:795-953 | every message is written in the literal bytes of its kind, length form and payload, or refused: control payloads beyond 125 bytes and close codes that may not be sent |
| WebSocketVerdicts.MaskedBits | src/codec/websocket.rs:786-791 | masking flips exactly the bits that are set in the key byte whose turn it is |
| Utf8.ValidIff | src/codec/websocket.rs:866-871 | the accepted texts are exactly the encodings of sequences of Unicode scalar values: nothing overlong, no surrogates, nothing beyond U+10FFFF |
| Http.AcceptedRequestIsSelfDelimiting | src/codec/http.rs:210-276 | an accepted request is decoded from its own bytes alone and unchanged in front of any others, whatever its body kind |
| Http.PipelinedRequestsSplit | src/codec/http.rs:210-276 | requests sent back to back split exactly at their boundaries |
| Http.VerdictStands | src/codec/http.rs:225-276 | once the blank line is found, later bytes change neither a request, nor its end, nor an error |
| Http.HeadLimitFalls | src/codec/http.rs:214-257 | the failing family: completing the half-read blank line overturns the refusal |
| Http.HeadLimitStands | src/codec/http.rs:214-257 | in every other case the refusal stands whatever follows |
| Http.HttpVerdictIsFinalIff | src/codec/http.rs:210-276 | a verdict cannot depend on how the bytes were split exactly when it is not a head refused as too large whose half-read blank line can still end it in time with an announcement that is not refused as too large itself |
| HttpPrinting.HeadLimitDependsOnSplit | src/codec/http.rs:214-230 | the failing case: a request whose head just fits is refused when its last byte arrives in its own read, and accepted otherwise |
| HttpPrinting.HeadLimitExample | src/codec/http.rs:214-230 | a concrete request and limit for which that happens |
| Http.HttpProgress | src/codec/http.rs:238-271 | every request shortens the buffer |
| Http.BlankLineIsIgnored | src/codec/http.rs:232-235 | the two passes over the head, with and without its blank line, agree on text check and fields |
| Http.RequestBuilds | src/codec/http.rs:278-301 | so building the request cannot fail once the first pass and the body succeeded |
| HttpCodec.FramingIff | src/codec/http.rs:375-438 | which header fields make a body chunked, of a given length, or absent, each exactly |
| HttpPrinting.HeadReads | src/codec/http.rs:497-536 | parsing a request line and header fields inverts printing them |
| HttpPrinting.ChunkedRoundTrip | src/codec/http.rs:440-495 | chunked decoding inverts chunked encoding: any chunks, any data, any spelling of sizes, any trailers, at any place in the buffer and before any bytes, with the exact end |
| HttpPrinting.SpelledSizeReads | src/codec/http.rs:553-561 | any hexadecimal spelling with leading zeros, either case, padding and an extension reads as its value |
| HttpPrinting.HexSpells | src/codec/http.rs:553-561 | every size has such a spelling |
| HttpPrinting.RequestRoundTrip | src/codec/http.rs:210-301 | a printed request without body, with a Content-Length, or in chunks decodes to itself and its length in front of any bytes |
| HttpCodec.ContentLengthOf | src/codec/http.rs:420-438 | the header loop finds the one Content-Length, none, or an error |
| HttpCodec.ParseHeaderFields | src/codec/http.rs:520-536 | the line loop collects the specified fields |
| HttpCodec.DecodeChunkedBody | src/codec/http.rs:440-495 | the chunk loop, with its saturating and checked additions, computes the specified body and end |
| HttpCodec.DecodeHttpRequest | src/codec/http.rs:210-276 | one decoder call does what one step of the specification says |
| HttpCodec.EncodeHttpResponse | src/codec/http.rs:303-330 | the encoder appends the specified status line, fields and body |
| HttpCodec.ResponseIsSelfDelimiting | src/codec/http.rs:303-330 | a response whose handler set no Content-Length reads back, fields included, with the length of its body among them |
| HttpTextLaws.SameIgnoringCaseIff | src/codec/http.rs:332-337 | names and tokens are compared byte by byte, ASCII letters in either case |
| HttpLaws.FramingIgnoresCase | src/codec/http.rs:375-438 | no spelling of a field name in another case changes how a request is framed |
| HttpLaws.HeaderIsFirst | src/codec/http.rs:332-337 | looking a field up finds the first of that name |
| HttpTextLaws.SpaceIff | src/codec/http.rs:497-511 | white space is recognised by its code point: the Unicode property White_Space |
| HttpTextLaws.TrimIs | src/codec/http.rs:530-532 | trimming takes white space off both ends, and all of it |
| HttpTextLaws.SplitIs | src/codec/http.rs:380-384 | a list is split at every separator and nowhere else |
| HttpTextLaws.LinesAre | src/codec/http.rs:497-520 | a head is split at every CR LF and nowhere else |
| HttpTextLaws.FieldIs | src/codec/http.rs:520-536 | a field is the trimmed text around the first colon; a line without one is refused |
| HttpTextLaws.EmptyLinesAreSkipped | src/codec/http.rs:520-536 | empty lines among the fields are skipped, wherever they stand |
| HttpTextLaws.ParseUsizeIff | src/codec/http.rs:420-438 | a number is digits of the base, perhaps behind a plus sign, whose value fits 64 bits |
| HttpLaws.AcceptedRequest | src/codec/http.rs:210-276 | an accepted request keeps every limit and announcement: head and body within their limits, HTTP/1 with a method and a target, a body as long as announced, chunks and trailers only where allowed |
| HttpLaws.HeadDecides | src/codec/http.rs:225-301 | a well-formed head is refused for its length or its announcement, or else the body decides, with the same error |
| HttpLaws.AcceptedChunks | src/codec/http.rs:440-495 | whatever is accepted as a chunked body is one: chunks as long as their lines spell, each ended by CR LF, a last one of size zero, and an ending |
| HttpLaws.LongChunksAreRefused | src/codec/http.rs:470-475 | the size line that takes a chunked body beyond the limit is refused as too large, whatever stands behind it |
| HttpLaws.RefusedChunks | src/codec/http.rs:456-495 | conversely a body refused as too large shows chunks within the limit and a size line that exceeds it |
| HttpLaws.LongChunkedRequestIsRefused | src/codec/http.rs:210-276 | so a request whose chunks exceed the body limit is refused |
| HttpLaws.LongBodyIsRefused | src/codec/http.rs:240-246 | a Content-Length beyond the limit is refused before any of the body has arrived |
| HttpLaws.StatusLineReads | src/codec/http.rs:303-309 | the status line reads back as "HTTP/1.1", the status in decimal and the reason |
| HttpLaws.ResponseKeepsItsFields | src/codec/http.rs:310-330 | a response whose handler set a Content-Length reads back with exactly the handler's fields |
| HttpWs.HandshakeParsersAgree | src/codec/websocket.rs:550-645 | for an upper-case GET the two handshake parsers read the same handshake, or the same refusal, from the same head |
| HttpWs.HandshakeCodecsAgree | src/codec/websocket.rs:274-324 | on a complete upper-case GET without body the two codecs take the same step when it asks for an upgrade; otherwise one passes it on as HTTP and the other refuses it |
| HttpWs.WebSocketCodecProgress | src/codec/websocket.rs:299-330 | the handshake-only codec shortens its buffer with every item and moves to frames exactly on the handshake |
| HttpWs.WriteHandshakeResponse | src/codec/websocket.rs:695-709 | the loop writes the specified 101 response |
| HttpWs.HttpWsCodec.Decode | src/codec/websocket.rs:235-296 | one decoder call does what the state's specification says |
| HttpWs.HttpWsCodec.Encode | src/codec/websocket.rs:249-272 | the encoder, and only it, moves to the frame state, on the handshake response |
| HttpWs.WebSocketCodec.Decode | src/codec/websocket.rs:201-210 | the decoder moves to frames when it reads a handshake |
| HttpWs.WebSocketCodec.Encode | src/codec/websocket.rs:212-227 | the encoder writes frames in either state |
| HandshakeLaws.AsksIff | src/codec/http.rs:141-150 | a request asks for an upgrade exactly when it is a GET whose Upgrade field is "websocket" and whose first Connection field lists "upgrade", in any case |
| HandshakeLaws.HandshakeIff | src/codec/websocket.rs:550-578 | a request that asks for an upgrade opens a WebSocket exactly when it has a target, HTTP/1.1, version 13 and a valid key; otherwise it is refused |
| HandshakeLaws.RequestBecomes | src/codec/websocket.rs:274-296 | what the shared-port codec makes of a complete request: HTTP, a handshake, or a refusal with the request off the buffer |
| HandshakeLaws.UpgradeIgnoresCase | src/codec/websocket.rs:550-578 | no spelling of a field name in another case changes the outcome of a handshake |
| HandshakeLaws.AnswerReads | src/codec/websocket.rs:695-709 | a client reads the answer as status 101, the three fields it waits for, and the handler's own |
| HandshakeLaws.EncoderKeepsOrder | src/codec/websocket.rs:249-272 | whatever is written in whatever order, the encoder lets through HTTP responses, at most one handshake response, then frames |
| HandshakeLaws.MovesOnIff | src/codec/websocket.rs:212-227 | after any writes the handshake-only codec is in the frame state exactly when it was before or an answer was among them |
| Upgrade.UpgradeIsSafe | src/codec/websocket.rs:235-464 | over every run without channel writes: what is decoded and what is written are HTTP, at most one handshake, then frames, and each encoding is that of its message |
| Upgrade.CallsInStep | src/codec/websocket.rs:235-296 | at every decode call of such a run, those of a read that ends the connection included, the codec is in the frame state exactly when a handshake has already been decoded |
| Upgrade.WireIsUpgraded | src/codec/websocket.rs:235-464 | the stream carries a prefix of HTTP responses, at most one 101, then frames |
| Upgrade.NoWrongStateError | src/codec/websocket.rs:249-272 | a reply never meets the encoder's wrong-state errors |
| Upgrade.UpgradeIgnoresReadBoundaries | src/codec/websocket.rs:235-296 | requests, handshake and frames may be cut into reads in any way, for streams of any length and every configuration, unless the connection ends with "too large" |
| StreamRuntime.StreamConnectionRuntime.RunConnection | src/transport/tcp/connection.rs:173-234 | the select loop: for every handler, every event list and a stream that fails anywhere, the stream holds exactly the message-level bytes cut where it failed; outbox and write buffer are empty at every select |
| StreamRuntime.StreamConnectionRuntime.DecodeLoop | src/transport/tcp/connection.rs:269-309 | the decode loop terminates and serves the buffer as the account says |
| StreamRuntime.StreamConnectionRuntime.HandleRead | src/transport/tcp/connection.rs:236-267 | a read counts its bytes, checks the limit, then decodes |
| StreamRuntime.StreamConnectionRuntime.HandleMessage | src/transport/tcp/connection.rs:280-305 | a message counts as a frame, is handled, and ends the connection on failure or request |
| StreamRuntime.StreamConnectionRuntime.HandleCommand | src/transport/tcp/connection.rs:311-366 | channel commands, and the acknowledgement of a flushing write |
| StreamRuntime.StreamConnectionRuntime.HandleWrite | src/transport/tcp/connection.rs:316-332 | a channel write counts as a frame even when a stage stopped it |
| StreamRuntime.StreamConnectionRuntime.RunHandler | src/pipeline/stream/runtime.rs:171-219 | the polled handler: what it stages is delivered in order, also when it returns an error, before its result counts |
| StreamRuntime.StreamConnectionRuntime.Turn | src/pipeline/stream/runtime.rs:175-199 | one turn of the poll loop: the connection task never sleeps with a flush in the outbox |
| StreamRuntime.StreamConnectionRuntime.DrainOutbox | src/pipeline/stream/runtime.rs:246-286 | draining performs the commands in order and stops at the first failure |
| StreamRuntime.Context.Poll | src/context/stream.rs:157-235 | a handler's writes and flushes are queued in order, in place; closing is a flag |
| StreamRuntime.Context.TakeCommands | src/context/stream.rs:237-239 | taking the commands empties the outbox |
| StreamRuntime.StreamConnectionRuntime.EncodeOutbound | src/pipeline/stream/runtime.rs:288-312 | staging, encoding and the frame count; a partial encoding never reaches the stream |
| StreamRuntime.StreamConnectionRuntime.ProcessOutbound | src/pipeline/stream/runtime.rs:222-234 | stages and encoder for a channel write |
| StreamRuntime.StreamConnectionRuntime.FlushWriteBuf | src/pipeline/stream/runtime.rs:314-329 | flushing writes everything, counts it and empties the buffer, or fails part-way |
| StreamLaws.RunIsSound | src/transport/tcp/connection.rs:173-383 | in every run the stream is a prefix of the encodings in processing order, and all of them at every select and at every end but a failure to send; each encoding is one that the stages and the codec give its message |
| StreamLaws.DeliveryConserves | src/pipeline/stream/runtime.rs:246-329 | stream and pending bytes are the concatenated encodings after any actions |
| StreamLaws.DeliverEncodesWrites | src/pipeline/stream/runtime.rs:262-312 | whatever flushes, closes and suspensions lie between them, a handler's writes are encoded as one list up to the first failure |
| StreamLaws.FlushIsAcknowledgedAfterDelivery | src/context/stream.rs:163-166 | a flush is acknowledged with everything staged before it on the stream |
| StreamLaws.ChannelFlushIsAcknowledgedAfterDelivery | src/transport/tcp/connection.rs:333-362 | a flushing channel write is acknowledged with its own message, and all before it, on the stream; a failed one is not |
| StreamLaws.RunKeepsOrder | src/transport/tcp/connection.rs:173-383 | in every run, channel writes and handlers interleaved in any way, the messages processed are those of the events in their order: a channel write's own, and for a read the replies to the messages it completed; all of them unless sending failed |
| StreamLaws.SplitInvariance | src/transport/tcp/connection.rs:236-309 | for whole connections of any length, handlers and state-changing codecs included: read boundaries change nothing unless the connection ends with "too large" |
| StreamLaws.RunCallsAreComplete | src/transport/tcp/connection.rs:269-278 | the decode calls of a run: every decoded message has its call, made after exactly the messages before it |
| StreamLaws.StatelessDecodersStand | src/transport/tcp/connection.rs:269-306 | any stateless decoder whose verdicts stand meets the requirements of these laws |
| StreamEndings.EventsThatEnd | src/transport/tcp/connection.rs:173-364 | over runs: shutdown, end of stream, a failed read, a close command, no sender left and the idle timeout each end the connection at once, with their own reason and nothing else changed |
| StreamEndings.EndsIff | src/transport/tcp/connection.rs:173-364 | a connection ends for one of these reasons exactly when it reaches an event that causes it |
| StreamEndings.ReadsThatEnd | src/transport/tcp/connection.rs:257-278 | over runs: a read beyond the limit ends the connection undecoded, and a decoder error ends it with that error under its own reason |
| StreamEndings.CallDecides | src/transport/tcp/connection.rs:269-305 | over runs, at every decode call: a decoder error, a stage that refuses, a failure to encode, the handler's error and its request to close each end the connection with their own reason, in this order of precedence |
| StreamEndings.ChannelWrite | src/transport/tcp/connection.rs:311-362 | over runs: a channel write is on the stream when it is encoded and nothing when a stage stops it, counted either way; a refusal ends the connection with that error and nothing sent; only a flushing one is acknowledged, once it is on the stream |
| StreamEndings.FramesAreCounted | src/pipeline/stream/runtime.rs:299-312 | without stages that stop messages, exactly the processed messages are counted as frames written |
| StreamEndings.BytesAreCounted | src/transport/tcp/connection.rs:253-255 | while the connection runs, every byte that arrived has been counted |
| Server.NoLostShutdown | src/transport/shutdown.rs:5-18 | in every reachable state a waiting connection, and a waiting accept loop, can see a requested shutdown |
| Server.LifecycleOrder | src/transport/tcp/server.rs:216-294 | over all interleavings: one closed hook behind each successful opened hook, none after a failed one, the stopped hook once and last |
| Server.StepIsOrderly | src/transport/tcp/connection.rs:50-106 | each step of server, connection or handle keeps the hook order |
| Server.ShutdownIsBounded | src/transport/tcp/server.rs:278-284 | after the request, server and connections together take at most a fixed number of steps |
| Server.ShutdownIsNeverStuck | src/transport/tcp/server.rs:220-294 | after the request there is always a step until the server is gone |
| Server.StepLosesNothing | src/transport/tcp/server.rs:190-194 | each step keeps receivers that wait behind the version of a pending request |
| ServerLaws.ShutdownCallIsHeard | src/transport/tcp/server.rs:190-194 | in every run, once no shutdown call is under way any more, one that was made has put the flag up |
| ServerLaws.NoFalseAlarm | src/transport/tcp/server.rs:190-284 | no wait completes before shutdown has been requested, by a call or by the server on its way out |
| ServerLaws.NothingAfterAFailedAccept | src/transport/tcp/server.rs:226-230 | a failed accept ends the server: in no run is a connection accepted behind it |
| ServerLaws.AtMostOneMore | src/transport/tcp/server.rs:221-266 | once shutdown is requested at most one more connection is accepted |
| ServerLaws.OneMoreHappens | src/transport/tcp/server.rs:221-266 | and that one can happen, because the select may take the accept first |
| DatagramRuntime.DatagramSocketRuntime.RunLoop | src/transport/udp/socket.rs:65-241 | the event loop sends exactly the accounted datagrams, cut where a send failed |
| DatagramRuntime.DatagramSocketRuntime.HandleDatagram | src/transport/udp/socket.rs:72-149 | one datagram: buffer, size check, decode, handle |
| DatagramRuntime.DatagramSocketRuntime.HandleWrite | src/transport/udp/socket.rs:153-183 | one channel write |
| DatagramRuntime.DatagramSocketRuntime.RunHandler | src/pipeline/datagram/runtime.rs:161-208 | the polled handler: what it stages is sent in order, also when it returns an error |
| DatagramRuntime.DatagramSocketRuntime.DrainOutbox | src/pipeline/datagram/runtime.rs:230-260 | draining sends one datagram a message, in order |
| DatagramRuntime.DatagramSocketRuntime.Transmit | src/pipeline/datagram/runtime.rs:248-251 | stages, encoder and one datagram for one message |
| DatagramRuntime.DatagramSocketRuntime.FlushDatagram | src/pipeline/datagram/runtime.rs:283-294 | sends the write buffer as one datagram unless it is empty |
| DatagramRuntime.DatagramSocketRuntime.ReceiveInto | src/transport/udp/socket.rs:72-74 | the fixed read buffer keeps what fits |
| DatagramSpec.RunIsOneEach | src/transport/udp/socket.rs:65-241 | in every run the datagrams sent are the peers and non-empty encodings of the processed messages, in order, never merged or split; each encoding is one that the stages and the codec give its message |
| DatagramSpec.SocketKeepsOrder | src/transport/udp/socket.rs:65-241 | in every run, channel writes and handlers interleaved in any way, the messages processed are those of the events in their order; all of them unless sending failed |
| DatagramSpec.DatagramsEncodeWrites | src/pipeline/datagram/runtime.rs:246-281 | a handler's messages are encoded as one list up to the first failure |
| DatagramSpec.DatagramFlushMeansSent | src/context/datagram.rs:71-78 | a flush is acknowledged when every message staged before it has been sent |
| DatagramSpec.OversizeIsNoticedIff | src/transport/udp/socket.rs:48-101 | the socket refuses an oversize datagram unread exactly when the read buffer exceeds the limit; otherwise it does what it does for the first bytes up to the limit |
| DatagramSpec.OversizeSlipsThrough | src/transport/udp/socket.rs:48-101 | a concrete oversize datagram that is cut and handled |
| DatagramEndings.SocketEventsThatEnd | src/transport/udp/socket.rs:65-241 | over runs: shutdown, a close command and no sender left stop the socket, a failed receive breaks it, with nothing else changed |
| DatagramEndings.DatagramArrives | src/transport/udp/socket.rs:72-149 | over runs: what exceeds the read buffer is lost, the rest is refused for its length or its contents, or handled; everything the handler wrote is sent, and its failure or request to close ends it |
| DatagramEndings.SocketWrite | src/transport/udp/socket.rs:153-213 | over runs: a channel write is sent to its own peer, or breaks the socket; only a flushing one is acknowledged, once its datagram has been sent |
| DatagramEndings.DeliverySends | src/pipeline/datagram/runtime.rs:230-281 | what a handler writes goes through the stages, which see the peer of the context, one datagram to each message's own peer, up to the first failure |
| LengthField.EncodedFrameRecovers | src/codec/length_field_based_frame.rs:82-276 | with default strip, an encoded payload decodes to itself exactly when the frame is within the limit, for widths 1, 2, 3, 4, 8 and both byte orders |
| LengthField.PayloadsDecodeInOrder | src/codec/length_field_based_frame.rs:140-276 | any list of payloads decodes back in order |
| LengthField.AdjustedFrameRecovers | src/codec/length_field_based_frame.rs:140-175 | with any offset, adjustment and strip, the item is the frame from the strip to the adjusted end |
| LengthField.FieldReads | src/codec/length_field_based_frame.rs:82-118 | reading a length field inverts writing it |
| LengthField.FieldBytes | src/codec/length_field_based_frame.rs:218-276 | every byte of a field, in either order and at every width |
| LengthField.FieldDecides | src/codec/length_field_based_frame.rs:140-175 | the verdict on any field value and what has arrived behind it: decode error, too large, wait, or the frame, each exactly |
| LengthField.EncodedItemRecoversIff | src/codec/length_field_based_frame.rs:120-184 | under every configuration that can encode, what is written decodes to what the strip count leaves of it, exactly when it is within the limit and long enough |
| LengthField.EncodableIff | src/codec/length_field_based_frame.rs:120-276 | encoding succeeds exactly without offset and adjustment, at width 1, 2, 3, 4 or 8, for payloads the field can count |
| LengthField.LengthFieldIsStable | src/codec/length_field_based_frame.rs:140-175 | every frame shortens the buffer and no verdict is changed by later bytes |
| LengthField.WriteLength | src/codec/length_field_based_frame.rs:218-276 | writes the field of a supported width that fits, and otherwise nothing and an error |
| LengthField.LengthFieldBasedFrameDecoder.Decode | src/codec/length_field_based_frame.rs:140-175 | one decoder call does what one step of the specification says |
| LengthField.LengthFieldBasedFrameDecoder.Encode | src/codec/length_field_based_frame.rs:120-184 | encoding needs zero offset and adjustment |
| LengthField.LengthFieldPrepender.Encode | src/codec/length_field_based_frame.rs:210-216 | prepends the field |
| Delimiter.FindDelimiterIsLeast | src/codec/delimiter_based_frame.rs:108-118 | what is found is an occurrence, and none of any delimiter is earlier or, at the same place, shorter |
| Delimiter.VerdictIsFinalIff | src/codec/delimiter_based_frame.rs:65-91 | a verdict is final exactly when the buffer does not end in the beginning of a delimiter that would come earlier |
| Delimiter.LineDelimiterDependsOnSplit | src/codec/delimiter_based_frame.rs:54-82 | counterexample: with CRLF and LF, "too large" depends on where the read ends |
| Delimiter.OneByteDelimitersAreStable | src/codec/delimiter_based_frame.rs:65-91 | with one-byte delimiters every verdict is final |
| Delimiter.DelimiterProgress | src/codec/delimiter_based_frame.rs:84-85 | every frame shortens the buffer |
| Delimiter.EncodedItemRecoversIff | src/codec/delimiter_based_frame.rs:65-105 | with stripped delimiters, one or several, an encoded item decodes to itself exactly when it fits, its own delimiter is the earliest hit, and no earlier one is left half read |
| Delimiter.KeptItemRecoversIff | src/codec/delimiter_based_frame.rs:84-105 | with delimiters kept, an encoded item comes out whole exactly when the earliest hit ends it within the limit and none is left half read |
| Delimiter.FrameIff | src/codec/delimiter_based_frame.rs:65-91 | a frame is exactly what stands in front of the first delimiter, with it or without it |
| Delimiter.NoFrameIff | src/codec/delimiter_based_frame.rs:65-82 | otherwise it is too large, or waits, each exactly |
| Delimiter.DelimiterBasedFrameDecoder.Decode | src/codec/delimiter_based_frame.rs:65-91 | one decoder call does what one step of the specification says |
| Delimiter.DelimiterBasedFrameDecoder.Encode | src/codec/delimiter_based_frame.rs:94-105 | appends the item and the first delimiter |
| Line.EncodedLineRecoversIff | src/codec/line.rs:36-78 | an encoded line decodes to itself exactly when it fits, has no line feed and does not end in a carriage return |
| Line.CrLfLineRecovers | src/codec/line.rs:39-68 | a line ended by CR LF decodes to the line |
| Line.LineDecides | src/codec/line.rs:39-68 | everything the decoder says of a line and of its beginning: too large, the line without its carriage return, a decode error that removes it, or a wait |
| Line.LineIsStable | src/codec/line.rs:39-68 | every line shortens the buffer and no verdict is changed by later bytes |
| Line.LineCodec.Decode | src/codec/line.rs:39-68 | one decoder call does what one step of the specification says |
| Line.LineCodec.Encode | src/codec/line.rs:71-78 | appends the line and a line feed |

## Left out

- Error texts and the sizes carried by the too-large errors: only the kind of an error is modelled.
- Sockets, Tokio scheduling and timers: reads, writes, sends, shutdown and the idle timeout are events; task panics and cancellation are not modelled.
- Typed builders, pipeline typestate, the `#[handler]` macro, JSON stages and configuration setters: decided by the Rust type checker or without behaviour of their own.
- Fixed-length, byte-array, UTF-8 and plain datagram codecs: only easy members.
- SHA-1 and Base64: key validation is any predicate and the accept key any bytes.
- Reason phrases and response builders: a response carries the reason it is given.
- Queue bounds and wake-ups of the command channels: commands arrive as events in any order. The lifecycle hooks of clients and UDP sockets are not modelled.
- The acknowledgement channels: an acknowledgement of success is recorded with the stream position at which it was sent; a failed one is the error the operation returns, and receivers that were dropped are ignored.
- Inbound and business stages: their outcome for a message is part of the arbitrary handler (dropped, refused, or handled).
- MQTT and WebSocket session rules (QoS flows, per-packet property legality, fragmentation): the code has none.
- Bit operations are written as arithmetic on bytes; SUBACK and UNSUBACK, and DISCONNECT and AUTH, share a record because their layouts are the same.
- Spare buffer capacity and reservation: buffers are their contents.
- HttpPrinting.RequestRoundTrip: assumes that the buffer is shorter than 2^64 bytes, as every buffer is, and heads with single spaces and one space after each colon.
- HttpPrinting.ChunkedRoundTrip: the encoder is the model's own, since the program only decodes requests; the buffer is shorter than 2^64 bytes.
- HttpLaws.LongChunksAreRefused: under the largest limit of all, 2^64 - 1, the saturating sum never exceeds it (`HttpLaws.RefusedChunks`); the buffer is shorter than 2^64 bytes.
- HttpLaws.LongChunkedRequestIsRefused: likewise.
- HttpLaws.HeadDecides: for heads with single spaces and one space after each colon, as `HttpPrinting.RequestRoundTrip`.
- WebSocketFrames.EncodedMessageRecovers: payloads are at most 2^63 - 1 bytes, as every Rust buffer is.
- LengthField.EncodedFrameRecovers: payloads are at most 2^63 - 1 bytes, as every Rust buffer is.
- LengthField.EncodedItemRecoversIff: likewise.
- Upgrade.UpgradeIsSafe: for connections without outbound stages and without channel writes, which could write anything in any state.
- StreamLaws.SplitInvariance: says nothing of connections that end with "too large", because that verdict can be premature; for the decoders alone `Framing.LimitTripsIff`, `Delimiter.VerdictIsFinalIff` and `Http.HttpVerdictIsFinalIff` say when.
- Upgrade.UpgradeIgnoresReadBoundaries: likewise.
- StreamRuntime.StreamConnectionRuntime.RunConnection: the counters are exact unless sending failed, where they are not stated.
- Server.LifecycleOrder: absent task panics; the results of the closed and stopped hooks are ignored, as the code ignores them.
