# BearLang in Dafny

A model, with proofs, of the parts of BearLang where a mistake would be hardest to see: the byte-level
protocol code of the bundled web server (`stdlib/simpleweb/src/mongoose.c`), the hash table and the
growable array it is built on (`include/bearlang/uthash.h`, `utarray.h`), and the runtime's
environments, S-expressions and string splitting (`runtime/src`).

`dafny verify dfyconfig.toml` checks everything. The files, from the bottom up:

- `Bytes`, `Framing`, `Mbuf`: bytes and network order; one theorem about any loop that reads whole
  frames from a buffer filled piece by piece; the byte buffer of mongoose.
- `WebSocket`, `WebSocketMessages`, `WebSocketConnection`: framing, what the handler gets in terms of
  frames and messages, reassembly in place, sending (RFC 6455).
- `Mqtt`, `MqttCommands`, `MqttConnection`: variable lengths, publications, the other commands, the
  receive loop (MQTT 3.1.1).
- `Coap`, `CoapMessage`: sorted option lists, composing, parsing (RFC 7252).
- `Chunked`, `ChunkedBody`: chunked bodies collapsed in place (RFC 7230).
- `Digest`, `DigestContext`, `Md5Context`: SHA-1 and MD5 over any split of the message.
- `UriPath`, `Dns`, `Base64`, `Calendar`: dot segments in place, domain names, base64, `cs_timegm`.
- `HashLoad`, `HashItems`, `HashTable`, `HashDict`, `Merging`, `HashSort`: the hash table, the map it
  stands for, its load bounds and its list sort.
- `Symbols`, `Environment`: interning, contexts, qualified names.
- `Sexp`, `SexpText`: reading and printing, as tokens and as text.
- `Splitting`, `DynamicArray`: `split_str` and `join_str`, and the growable array.

Code that computes is modelled by functions; code that updates buffers, lists, tables or arrays is
modelled by classes and methods on arrays and linked objects, each proved equal to such a function.
Callbacks are logs of events. For streams the pattern is: the reader does the right thing with one
whole frame and nothing with part of one (`DeliverFrame`, `DeliverWaits` and their like); then, by
`Framing.AnyPrefix`, it does the right thing with every stream under every cut.

Some properties one would expect do not hold of the code. The model keeps the code as it is and
states exactly when they do:

- WebSocket frames of exactly 65535 bytes are sent in the 64-bit form (`SentFrameIsReadable`).
- MQTT acknowledgements shorter than their id take it from the next message (`ParseShortAck`).
- MQTT flags from 64 on change the command (`PublishSurvives`); the id field of a QoS 0 message may
  hold that of an earlier message of the same arrival (`RawIdsExactly`).
- An MQTT message longer than the receive limit is delivered when it comes at once and closes the
  connection when it comes in pieces (`PublishesExactly`).
- MD5 counts pieces of 2^32 bytes or more short (`StandardLengthExactly`).
- CoAP accepts options that it cannot read back (`Coap.RoundTripExactly`).
- DNS labels of 64 to 127 bytes, and empty ones in a name that is not empty, are written but not
  read back (`Dns.RoundTripExactly`).
- `cs_timegm` sums in 32 bits and overflows from 2038 on (`TimegmExactly`).
- Symbols longer than 31 bytes are never shared, and answer for their first 31 bytes
  (`SameSymbolExactly`, `RightNameExactly`).
- `do` and `while` are lost in printing, and names of more than 31 bytes are read as new symbols
  (`Sexp.RoundTripExactly`, `ReadAgainExactly`).
- A string equal to the separator is split into itself (`NoSeparatorExactly`).
- Binding a name to null does not shadow: the enclosing binding shows again (`WriteSeen`).

## Model

| member | source | states |
|---|---|---|
| `Mbuf.Buffer.Insert` | stdlib/simpleweb/src/mongoose.c:1456-1486 | growing or not, the buffer becomes its bytes before `off`, the new bytes, and its bytes from `off` on; where it must grow its size becomes one and a half times the new length |
| `Mbuf.Buffer.Append` | stdlib/simpleweb/src/mongoose.c:1489-1491 | the new bytes stand behind the old contents |
| `Mbuf.Buffer.Remove` | stdlib/simpleweb/src/mongoose.c:1494-1499 | drops the first `n` bytes, and nothing at all if there are fewer |
| `WebSocket.MaskedTwice` | stdlib/simpleweb/src/mongoose.c:9573-9578 | masking twice with one key gives the payload back, so a payload unmasked once is the one sent (section 5.3 of RFC 6455) |
| `WebSocket.HeaderOfFrame` | stdlib/simpleweb/src/mongoose.c:9540-9556 | once the header bytes are there, each of the three length forms, masked or not, announces exactly the sizes of the frame that was encoded |
| `WebSocket.HeaderOfPrefix` | stdlib/simpleweb/src/mongoose.c:9540-9556 | with part of a header, the parser either knows nothing or announces more header than has arrived |
| `WebSocket.Deliver` | stdlib/simpleweb/src/mongoose.c:9489-9640 | whenever a call processes a frame, the bytes in the buffer get strictly fewer, which is why the delivery loop ends |
| `WebSocket.DeliverFrame` | stdlib/simpleweb/src/mongoose.c:9489-9640 | a whole frame at the front has exactly the effect sections 5.4 and 5.5 of RFC 6455 give it: kept, joined to the open message, delivered, or answered with its payload (but for a close of 2^32 - 1 bytes and the like, see `Answer`); what follows it is untouched |
| `WebSocket.Answer` | stdlib/simpleweb/src/mongoose.c:9480-9487 | a ping or close of fewer than 2^32 - 1 bytes is answered once with its own payload, nothing else is answered |
| `WebSocket.DeliverWaits` | stdlib/simpleweb/src/mongoose.c:9540-9563 | a proper prefix of a frame has no effect, for every length form and every prefix length |
| `WebSocket.AnyCutDelivers` | stdlib/simpleweb/src/mongoose.c:9779-9782 | for every valid stream (fragmented messages, interleaved control frames, any masks and length forms, nothing behind a close) and every cut into arrivals, the events and answers are exactly the meaning of the frames in order, nothing is refused and nothing is left over |
| `WebSocket.AnyPrefixDelivers` | stdlib/simpleweb/src/mongoose.c:9779-9782 | at every moment of a stream: exactly the frames wholly received have been delivered and the bytes of the next one wait behind the open message |
| `WebSocketMessages.AnyCutMessages` | stdlib/simpleweb/src/mongoose.c:9462-9640 | what the handler gets, said of the frames alone, for every valid stream and every cut: the control events are the control frames in order with their first bytes and payloads; each other event is one message with its fragments' payloads joined, the first fragment's opcode and FIN set; the data of the events and the open message, joined, are the payloads joined, so nothing is lost; without reassembly every frame is an event; an event is a control event exactly when bit 3 is set; every ping and close (of fewer than 2^32 - 1 bytes) is answered with its payload |
| `WebSocketMessages.ControlPassesThrough` | stdlib/simpleweb/src/mongoose.c:9520-9529 | control frames between fragments are handed over where they come and leave the open message alone |
| `WebSocketMessages.MessagesAreEvents` | stdlib/simpleweb/src/mongoose.c:9580-9610 | the data events are the complete messages in order, whatever message was open before, and the frames of an unfinished one are what stays open |
| `WebSocketMessages.FramesAreEvents` | stdlib/simpleweb/src/mongoose.c:9462-9469 | on a connection that does not reassemble each frame gives one event with its first byte and payload |
| `WebSocketMessages.AnswersAreOwed` | stdlib/simpleweb/src/mongoose.c:9611-9640 | the answers are a pong for each ping and a close for each close, in order, with the same payload |
| `WebSocketMessages.FirstByte` | stdlib/simpleweb/src/mongoose.c:9446-9460 | the tests on the first byte by its bits: FIN is 0x80, the opcodes 0, 8, 9 and 10 |
| `WebSocketMessages.Refused` | stdlib/simpleweb/src/mongoose.c:9522-9563 | the bytes that make the delivery refuse: a control frame without FIN, a whole frame inside a fragmented message, a length that overflows 64 bits |
| `WebSocketMessages.OddClose` | stdlib/simpleweb/src/mongoose.c:9480-9487 | a close whose length narrows to -1 is answered by what stands before its first zero |
| `WebSocketMessages.FrameInBytes` | stdlib/simpleweb/src/mongoose.c:9675-9719 | the message `hi` byte for byte, unmasked and masked with 1 2 3 4 |
| `WebSocketConnection.Unmask` | stdlib/simpleweb/src/mongoose.c:9573-9578 | the in-place loop masks each byte once with the key byte at its position modulo four and changes nothing else |
| `WebSocketConnection.Connection.DeliverData` | stdlib/simpleweb/src/mongoose.c:9489-9640 | the in-place delivery on the receive buffer does what the model of delivery on values does, refusals included, and shrinks the buffer whenever it reports progress |
| `WebSocketConnection.Connection.KeepFragment` | stdlib/simpleweb/src/mongoose.c:9580-9610 | a fragment's payload ends up behind the reassembled bytes with everything after it moved down; a final one hands the message over |
| `WebSocketConnection.Connection.HandOver` | stdlib/simpleweb/src/mongoose.c:9597-9609 | the event's first byte is the first fragment's with FIN set, its data all the reassembled bytes, and its kind is bit 3 of the flags; exactly the reassembled bytes leave the buffer |
| `WebSocketConnection.Connection.Received` | stdlib/simpleweb/src/mongoose.c:9774-9783 | one arrival followed by delivery until it stops equals the draining loop of the stream theorem |
| `WebSocketConnection.SentFrameIsReadable` | stdlib/simpleweb/src/mongoose.c:9675-9699 | every frame sent carries the payload, mask and opcode asked for, with FIN unless that was switched off, and is well formed for the reader unless it is a close that `mg_ws_close` would take for an unended C string; its length form is the shortest one exactly when the payload is not 65535 bytes long (the test is `< 65535`) |
| `WebSocketConnection.MaskFrame` | stdlib/simpleweb/src/mongoose.c:9713-9719 | the bytes from `pos` on are masked with the key, the bytes before it are unchanged |
| `WebSocketConnection.SendHeader` | stdlib/simpleweb/src/mongoose.c:9675-9711 | appends exactly the frame's header, with flags, length form and mask |
| `WebSocketConnection.SendFrame` | stdlib/simpleweb/src/mongoose.c:9721-9729 | appends exactly the encoding that the reader's theorems are about |
| `Mqtt.ScanVarLen` | stdlib/simpleweb/src/mongoose.c:10323-10333 | the length loop reads back what the length encoder wrote, wherever it stands |
| `Mqtt.ScanPrefix` | stdlib/simpleweb/src/mongoose.c:10323-10333 | with length bytes missing the scan reports that more must come |
| `Mqtt.VarLenSize` | stdlib/simpleweb/src/mongoose.c:10532-10538 | a remaining length takes at most four bytes exactly when it is below 2^28 (section 2.2.3 of MQTT 3.1.1), and at most five below 2^31 |
| `Mqtt.PublishSurvives` | stdlib/simpleweb/src/mongoose.c:10521-10523 | or-ing the flags into the first byte keeps the command exactly when the flags are below 64, and keeps the low four bits (retain, QoS, dup) always |
| `Mqtt.ParsePublication` | stdlib/simpleweb/src/mongoose.c:10312-10423 | a published message at the front is parsed back with topic, id, QoS and payload, whatever follows |
| `Mqtt.ParseIncomplete` | stdlib/simpleweb/src/mongoose.c:10312-10340 | no proper prefix of a publication is taken for a message or an error |
| `Mqtt.ParseAlike` | stdlib/simpleweb/src/mongoose.c:10312-10423 | for every byte string, well formed or not, what a message says does not depend on the record it is parsed into |
| `Mqtt.AnyCutPublishes` | stdlib/simpleweb/src/mongoose.c:10439-10466 | for every sequence of publications that each fit under the buffer limit, or without a limit, and every cut of their bytes, the handler sees exactly that sequence of topic, payload, QoS and (where sent) id, nothing is left over and the connection stays open |
| `Mqtt.PublishesExactly` | stdlib/simpleweb/src/mongoose.c:10445-10456 | every cut reaches the handler whole exactly when there is no limit or every message fits under it |
| `Mqtt.ShortOfOne` | stdlib/simpleweb/src/mongoose.c:10447-10456 | a longer message that arrives up to its last byte closes the connection: the messages before it are delivered, it stays in the buffer, and what still arrives is dropped |
| `Mqtt.ClosingDrops` | stdlib/simpleweb/src/mongoose.c:2666-2677 | on a connection that is being closed no arrival has any effect |
| `Mqtt.StaysOpenExactly` | stdlib/simpleweb/src/mongoose.c:10445-10456 | the connection stays open under every cut exactly when there is no limit or every message fits under it |
| `Mqtt.StaleId` | stdlib/simpleweb/src/mongoose.c:10425-10440 | a message without an id on the wire shows the id its record still held |
| `Mqtt.RawRecord` | stdlib/simpleweb/src/mongoose.c:10425-10466 | whatever the cut, a record without an id of its own shows zero or the id of the last publication before it that sent one, and is otherwise that of its publication |
| `Mqtt.RawIdsExactly` | stdlib/simpleweb/src/mongoose.c:10425-10466 | the records the handler sees are the same under every cut exactly when every message fits under the limit and no publication without an id follows one whose non-zero id is carried over to it |
| `Mqtt.RawIdWitness` | stdlib/simpleweb/src/mongoose.c:10425-10466 | two concrete messages with both logs: in one arrival the second shows id 7, in an arrival of its own it shows 0 |
| `MqttConnection.ScanLength` | stdlib/simpleweb/src/mongoose.c:10322-10333 | the loop over the buffer computes the scan the lemmas speak of |
| `MqttConnection.Connection.ParseMessage` | stdlib/simpleweb/src/mongoose.c:10312-10423 | parsing from the buffer is parsing its contents, for every command |
| `MqttConnection.Connection.Received` | stdlib/simpleweb/src/mongoose.c:10425-10466 | one arrival is dropped on a connection that is being closed, and otherwise equals the draining loop of the stream theorem, with the receive limit and the closing on errors |
| `MqttConnection.PrependHeader` | stdlib/simpleweb/src/mongoose.c:10519-10542 | inserts first byte and length before the last `len` bytes of the send buffer and keeps all other bytes |
| `MqttConnection.SendPublication` | stdlib/simpleweb/src/mongoose.c:10619-10636 | appends exactly the encoding that the parser's theorems are about |
| `MqttCommands.ParseFramed` | stdlib/simpleweb/src/mongoose.c:10312-10340 | for every command and body: the parser gets to the body with command and QoS known, and the message ends where the body does |
| `MqttCommands.ParseConnectMessage` | stdlib/simpleweb/src/mongoose.c:10342-10381 | a CONNECT parses to its protocol name, version, flags, keep alive and strings exactly when it has as many strings as the flags announce, and is malformed otherwise |
| `MqttCommands.ParseConnack` | stdlib/simpleweb/src/mongoose.c:10383-10386 | the return code is the second byte of the body; a shorter body is malformed |
| `MqttCommands.ParseAck` | stdlib/simpleweb/src/mongoose.c:10387-10393 | PUBACK, PUBREC, PUBREL, PUBCOMP and SUBACK: the id is the first two bytes in network order |
| `MqttCommands.ParseShortAck` | stdlib/simpleweb/src/mongoose.c:10387-10393 | their length is not checked: a shorter body takes its id from the bytes of the next message, or from behind the buffer |
| `MqttCommands.ParseBadPublish` | stdlib/simpleweb/src/mongoose.c:10394-10405 | a PUBLISH is malformed exactly when its topic is longer than the message or leaves no room for the id its QoS asks for |
| `MqttCommands.ParseSubscribe` | stdlib/simpleweb/src/mongoose.c:10406-10416 | the id in network order and everything behind it as payload; a shorter body is malformed |
| `MqttCommands.ParseBare` | stdlib/simpleweb/src/mongoose.c:10417-10423 | the other commands parse to command and QoS alone |
| `MqttCommands.ParseEndlessLength` | stdlib/simpleweb/src/mongoose.c:10323-10333 | length bytes that go on beyond the fifth are malformed |
| `Coap.InsertIsStable` | stdlib/simpleweb/src/mongoose.c:11734-11780 | a new option goes behind all options with the same number |
| `Coap.AddedAreSorted` | stdlib/simpleweb/src/mongoose.c:11734-11780 | options added in any order end up ascending, none lost or invented, equal numbers in the order they were added |
| `Coap.SizeIsExact` | stdlib/simpleweb/src/mongoose.c:12103-12150 | the packet size computed beforehand is the number of bytes written |
| `Coap.ExtendedRoundTrip` | stdlib/simpleweb/src/mongoose.c:11872-11911 | extended deltas and lengths are read back modulo 2^16 |
| `Coap.ParseOfEncode` | stdlib/simpleweb/src/mongoose.c:12002-12027 | parsing a composed message gives back type, code, id, token, options and payload, with exactly the flags of the fields present |
| `Coap.AnyOrderRoundTrip` | stdlib/simpleweb/src/mongoose.c:12002-12221 | for options added in any order: composing is accepted, and parsing gives the same message with the options stably sorted |
| `Coap.ParsedAreSmall` | stdlib/simpleweb/src/mongoose.c:11918-11996 | no parsed option ever has a number or a length above 65535, whatever the bytes |
| `Coap.RoundTripExactly` | stdlib/simpleweb/src/mongoose.c:12002-12221 | compose accepts steps and lengths up to 65804, and among accepted messages the round trip holds exactly when all option numbers and lengths are at most 65535 |
| `Coap.OversizeAccepted` | stdlib/simpleweb/src/mongoose.c:12103-12150 | a concrete accepted message that does not come back: one option of 65536 bytes |
| `Coap.HeaderTrouble` | stdlib/simpleweb/src/mongoose.c:11787-11870 | too short, another version, a token length above eight, a token cut off: which error, and which fields are filled by then |
| `Coap.HeaderRead` | stdlib/simpleweb/src/mongoose.c:12002-12027 | for every packet with a whole header the header fields are its bits, and error, options, payload and field flags are what the option loop gives |
| `Coap.ReservedNibble` | stdlib/simpleweb/src/mongoose.c:11918-11996 | behind any options, a nibble of 15 that is no payload marker is a format error |
| `Coap.OptionCutOff` | stdlib/simpleweb/src/mongoose.c:11918-11996 | behind any options, an option whose value is cut off means that data is missing |
| `Coap.MessageInBytes` | stdlib/simpleweb/src/mongoose.c:12152-12221 | a concrete message byte for byte |
| `CoapMessage.OptionList.Add` | stdlib/simpleweb/src/mongoose.c:11734-11780 | relinking the list in place keeps head, tail and links right and inserts where the model inserts |
| `CoapMessage.CalculateSize` | stdlib/simpleweb/src/mongoose.c:12103-12150 | the walk over the list finds the same objection, or the same size, as the model |
| `CoapMessage.Compose` | stdlib/simpleweb/src/mongoose.c:12152-12221 | appends exactly the encoding to the buffer, or nothing when there is an objection; earlier contents are unchanged |
| `CoapMessage.PutOptions` | stdlib/simpleweb/src/mongoose.c:12188-12212 | the option loop writes the options' encoding from front to back |
| `CoapMessage.GetOptions` | stdlib/simpleweb/src/mongoose.c:11918-11996 | the option loop of the parser fills a valid list with the options of the model, and gives the list up on every error |
| `Digest.Counting` | stdlib/simpleweb/src/mongoose.c:1322-1324 | the two-word bit counter with its carry counts every bit modulo 2^64, for pieces below 2^32 bytes |
| `Digest.BlockPosition` | stdlib/simpleweb/src/mongoose.c:1325-1325 | the low counter word tells the position inside the current block |
| `Digest.WrapLooksShort` | stdlib/simpleweb/src/mongoose.c:1325-1326 | where position and length of a piece wrap in 32 bits, SHA-1 takes the branch for pieces that fit the block, though the piece does not |
| `DigestContext.Sha1.Update` | stdlib/simpleweb/src/mongoose.c:1318-1336 | for every piece that does not make the 32-bit sum of position and length wrap: the state stays the transform folded over all whole blocks of everything fed so far |
| `DigestContext.Sha1.Final` | stdlib/simpleweb/src/mongoose.c:1338-1360 | the digest is the fold over the message with the standard padding (section 4 of RFC 3174), also when the padding spills into another block; byte 4 i + k of its 20 is byte k of state word i, most significant first |
| `DigestContext.Sha1Of` | stdlib/simpleweb/src/mongoose.c:1318-1360 | for every message and every split into such pieces the digest is that of the whole message, its 20 bytes the five words in order |
| `DigestContext.ShortPiecesAreSafe` | stdlib/simpleweb/src/mongoose.c:1318-1326 | pieces of up to 2^32 - 64 bytes never make that sum wrap |
| `Md5Context.Md5.Update` | stdlib/simpleweb/src/mongoose.c:1075-1107 | for pieces of any length: the state stays the fold over all whole blocks, and the counter counts each piece's length in 32 bits |
| `Md5Context.Md5.Final` | stdlib/simpleweb/src/mongoose.c:1110-1138 | padding in place in one or two blocks gives the fold over the message with the standard padding (sections 3.1 and 3.2 of RFC 1321) and the length counted; byte 4 i + k of the 16 is byte k of state word i, least significant first |
| `Md5Context.Md5Of` | stdlib/simpleweb/src/mongoose.c:1075-1138 | for every message and every split into updates the digest is that of the whole message with the length counted in the padding |
| `Md5Context.StandardLengthExactly` | stdlib/simpleweb/src/mongoose.c:1075-1081 | the length counted is the standard's exactly when every piece was shorter than 2^32 bytes |
| `Chunked.HexRoundTrip` | stdlib/simpleweb/src/mongoose.c:5928-5933 | the hexadecimal size printed by the sender is read back by the scan |
| `Chunked.HexLetters` | stdlib/simpleweb/src/mongoose.c:5928-5933 | which bytes are digits and what they are worth, in capital and small letters |
| `Chunked.HexOnly` | stdlib/simpleweb/src/mongoose.c:5928-5933 | no other bytes are taken for digits |
| `Chunked.ChunkInBytes` | stdlib/simpleweb/src/mongoose.c:6969-6977 | a concrete chunk byte for byte |
| `Chunked.ParseWhole` | stdlib/simpleweb/src/mongoose.c:5922-5953 | a whole chunk at the front is found with its data, its length and what follows |
| `Chunked.ParsePart` | stdlib/simpleweb/src/mongoose.c:5922-5953 | no proper prefix of a chunk is taken for a chunk |
| `Chunked.DeletionsDoNotMatter` | stdlib/simpleweb/src/mongoose.c:5989-6000 | whether the callback deletes delivered data changes only where the bytes are, not which they are |
| `Chunked.AnyPrefixCollapses` | stdlib/simpleweb/src/mongoose.c:5955-6010 | for every list of pieces, every cut into arrivals and every choice of deletions: after each arrival the body is the concatenation of the chunks wholly received, the unparsed rest follows, and the message is complete exactly with the zero chunk |
| `ChunkedBody.ScanChunk` | stdlib/simpleweb/src/mongoose.c:5922-5953 | the scan with its digit loop, modulo 2^64, computes the parse of the model |
| `ChunkedBody.BodyReader.CollapseChunks` | stdlib/simpleweb/src/mongoose.c:5966-5980 | the in-place loop leaves the collapsed data behind the body and points at the unparsed rest |
| `ChunkedBody.BodyReader.HandleChunked` | stdlib/simpleweb/src/mongoose.c:5955-6010 | collapse, shift, callback and deletion on the buffer equal the step of the stream theorem; with the zero chunk the message length is set to headers, body and what follows it |
| `ChunkedBody.SendChunk` | stdlib/simpleweb/src/mongoose.c:6969-6977 | appends exactly the encoding that the parser's theorems are about |
| `UriPath.NormalIsStandard` | stdlib/simpleweb/src/mongoose.c:5259-5291 | for every path with a leading slash the loop computes remove_dot_segments of section 5.2.4 of RFC 3986 |
| `UriPath.NormalForm` | stdlib/simpleweb/src/mongoose.c:5259-5291 | the result starts with a slash, is no longer than the path, has no `.` or `..` segment at any position, and is a fixed point |
| `UriPath.CleanIsKept` | stdlib/simpleweb/src/mongoose.c:5259-5291 | a path without dot segments passes through unchanged |
| `UriPath.PathInBytes` | stdlib/simpleweb/src/mongoose.c:5259-5291 | a concrete path with a dot segment, byte for byte |
| `UriPath.ParseComponent` | stdlib/simpleweb/src/mongoose.c:5115-5127 | the scan stops at the next slash or the end, and the next component starts behind it |
| `UriPath.Backtrack` | stdlib/simpleweb/src/mongoose.c:5276-5279 | the two backtracking steps drop the last written segment and keep the slash before it |
| `UriPath.Normalize` | stdlib/simpleweb/src/mongoose.c:5259-5291 | in place too, with output and input in one array: the bytes written are the standard's result, nothing is overwritten before it is read, other paths give an empty result and change nothing |
| `Dns.RoundTripExactly` | stdlib/simpleweb/src/mongoose.c:11042-11293 | with more room than the name is long, what the reader delivers of an encoded name, wherever it stands in a packet, is that name exactly when it is empty or every label has 1 to 63 bytes (the encoder accepts 0 to 127) |
| `Dns.EncodeName` | stdlib/simpleweb/src/mongoose.c:11042-11069 | appends length-prefixed labels and a zero and returns their size; a longer label gives -1 with the labels before it left in the buffer |
| `Dns.UncompressName` | stdlib/simpleweb/src/mongoose.c:11239-11293 | ends on every packet, never leaves the packet or writes more than `dst_len` bytes, and delivers the longest prefix of the (possibly compressed) name that fits; a name shorter than the room is ended by a zero; without a name the result is empty unless the room ran out first |
| `Dns.PointerDenotes` | stdlib/simpleweb/src/mongoose.c:11255-11268 | two bytes C0 + h and l stand for the labels at 256 h + l, one hop less, and for nothing if that is outside the packet |
| `Dns.CompressedName` | stdlib/simpleweb/src/mongoose.c:11255-11268 | a label followed by a pointer reads as the label and then the name at the place pointed to |
| `Dns.NameInBytes` | stdlib/simpleweb/src/mongoose.c:11042-11069 | a concrete name byte for byte |
| `Dns.EncodedIsDelivered` | stdlib/simpleweb/src/mongoose.c:11239-11293 | of a name with labels of 1 to 63 bytes the reader delivers all, or as much as there is room for |
| `Base64.CodeInverts` | stdlib/simpleweb/src/mongoose.c:345-382 | the inverse table undoes the alphabet for all 64 values |
| `Base64.TableExactly` | stdlib/simpleweb/src/mongoose.c:345-382 | the table on every byte: the letter's value for the alphabet, 200 for `=`, 255 for all else, the top bit ignored |
| `Base64.Alphabet` | stdlib/simpleweb/src/mongoose.c:225-236 | A to Z, a to z, 0 to 9, plus and slash in this order |
| `Base64.PaddedEnd` | stdlib/simpleweb/src/mongoose.c:285-322 | one byte left over ends in two `=`, two in one, none in none |
| `Base64.EncodedInParts` | stdlib/simpleweb/src/mongoose.c:262-272 | groups of three can be encoded apart from what follows, wherever the input is cut |
| `Base64.RoundTrip` | stdlib/simpleweb/src/mongoose.c:384-403 | decoding an encoding consumes all of it and gives the bytes back, for every length |
| `Base64.DecodedStops` | stdlib/simpleweb/src/mongoose.c:384-403 | on every input, well formed or not: where decoding stops and why (cut off, foreign letter, or a quadruple with `=`) |
| `Base64.DecodedSize` | stdlib/simpleweb/src/mongoose.c:384-403 | on every input: three bytes for each quadruple consumed but the last, and for that one as many as stand before its first `=` |
| `Base64.EncodedAgain` | stdlib/simpleweb/src/mongoose.c:384-403 | the converse round trip: whole quadruples of letters are what their decoded bytes encode to, the top bit cleared |
| `Base64.Encoder.Update` | stdlib/simpleweb/src/mongoose.c:262-272 | after any sequence of updates exactly the whole groups of all input so far have been emitted |
| `Base64.Encoder.Finish` | stdlib/simpleweb/src/mongoose.c:274-283 | however the input was cut, the output is the encoding of all of it (section 4 of RFC 4648) |
| `Base64.EncodeAll` | stdlib/simpleweb/src/mongoose.c:285-322 | the one-shot loop with its padding loop writes the same encoding and a zero |
| `Base64.Decode` | stdlib/simpleweb/src/mongoose.c:384-403 | the decoding loop stops where the model stops, with the same bytes and the same count |
| `Calendar.LeapStep` | stdlib/simpleweb/src/mongoose.c:884-889 | the closed-form leap terms step by one exactly across leap years of the Gregorian rule |
| `Calendar.CountsDays` | stdlib/simpleweb/src/mongoose.c:859-892 | the closed form numbers the days one by one from the first of January 1970 |
| `Calendar.EveryDate` | stdlib/simpleweb/src/mongoose.c:859-892 | every valid date from 1970 on gets the number of its own day, so no two share one |
| `Calendar.MonthsCarry` | stdlib/simpleweb/src/mongoose.c:864-873 | months out of range, also below zero, carry into the years |
| `Calendar.TimegmExactly` | stdlib/simpleweb/src/mongoose.c:859-892 | for every day and time from 1970 on the result is the number of seconds exactly as long as that is below 2^31; from there the 32-bit sum overflows |
| `Calendar.AnyDay` | stdlib/simpleweb/src/mongoose.c:859-892 | for any year, month and day, also before 1970, and a time of day in range: the seconds, -1 below zero, and exactly where the 32-bit sum overflows on either side |
| `Calendar.BeforeEpoch` | stdlib/simpleweb/src/mongoose.c:859-892 | every valid date and time from 1902 to 1969 gives -1 |
| `HashLoad.MultsAtMostBuckets` | include/bearlang/uthash.h:928-941 | the expand multipliers set by an expansion add up to at most one per bucket |
| `HashLoad.LoadFactor` | include/bearlang/uthash.h:849-868 | with every chain within its bound there are fewer than twenty items per bucket, and the next expansion's ideal stays within ten |
| `HashLoad.ExpandedIsBounded` | include/bearlang/uthash.h:915-963 | right after an expansion every chain is within ten times its multiplier plus one |
| `HashTable.Redistribute` | include/bearlang/uthash.h:928-950 | every item lands in the bucket its hash selects among twice as many, `nonideal_items` is the sum of the excess over the ideal and each over-ideal bucket has multiplier count / ideal |
| `HashTable.Table.Expand` | include/bearlang/uthash.h:915-963 | doubles the buckets over the same items, sets the ideal to the ceiling of items per bucket, stops expanding after two ineffective expansions in a row, and leaves application order, and with it every lookup, as it was |
| `HashTable.FindInBucket` | include/bearlang/uthash.h:827-847 | finds an item with that hash and key if the chain has one, null otherwise |
| `HashTable.Table.Add` | include/bearlang/uthash.h:396-433 | keeps the whole invariant and puts the item last in application order; the buckets double exactly when expansion is on and the item's chain reaches ten times its multiplier plus one; expansion is switched off only by such a doubling, the second in a row to leave more than half of the items beyond the ideal; a new table has 128 buckets and expansion on |
| `HashTable.Table.AddInorder` | include/bearlang/uthash.h:350-381 | keeps the whole invariant and puts the item before the first one that compares greater, with the same conditions on doubling and switching off; a table sorted by a total preorder stays sorted, with the item behind its equals |
| `HashTable.Table.Find` | include/bearlang/uthash.h:156-173 | finds an item with the key, or null only if no item has it |
| `HashTable.Table.Delete` | include/bearlang/uthash.h:450-477 | keeps the whole invariant and takes out that item alone; bucket count and expansion switch stay as they are |
| `HashTable.Table.Replace` | include/bearlang/uthash.h:254-262 | takes out the item with the same key, if there is one, and puts the new one last |
| `HashItems.PushFront` | include/bearlang/uthash.h:849-868 | the item becomes the head of its chain with all links right, other buckets unchanged |
| `HashItems.UnlinkInBucket` | include/bearlang/uthash.h:871-884 | the item leaves its chain with all links right, other buckets unchanged |
| `HashItems.LinkLast` | include/bearlang/uthash.h:278-284 | appending relinks the application order correctly |
| `HashItems.UnlinkItem` | include/bearlang/uthash.h:462-472 | unlinking relinks the application order correctly |
| `HashDict.Lookup` | include/bearlang/uthash.h:156-173 | with unique keys, finding is lookup in a plain map |
| `HashDict.Update` | include/bearlang/uthash.h:254-262 | with unique keys, replacing is map update and returns the old entry |
| `HashDict.Forget` | include/bearlang/uthash.h:450-477 | with unique keys, deleting is removal from the map |
| `HashDict.LoadBounds` | include/bearlang/uthash.h:849-868 | in every valid state with expansion on: ideal at most 10, every count at most ten times multiplier plus one, at most 20 items per bucket |
| `HashDict.Fsck` | include/bearlang/uthash.h:515-562 | the totals HASH_FSCK checks: bucket counts and list length both equal `num_items`, and every item is in its own bucket's chain |
| `Merging.PassDoubles` | include/bearlang/uthash.h:980-1042 | a pass over sorted runs leaves sorted runs twice as long |
| `Merging.SortIsStable` | include/bearlang/uthash.h:970-1052 | the passes leave a sorted permutation in which items that compare equal keep their order |
| `Merging.InsertSorted` | include/bearlang/uthash.h:286-293 | inserting before the first greater item keeps a sorted list sorted, behind the item's equals |
| `HashSort.MergeRuns` | include/bearlang/uthash.h:997-1037 | the merge loop on `next` and `prev` pointers appends the stable merge of the two runs to the output |
| `HashSort.SortPass` | include/bearlang/uthash.h:980-1042 | a pass over the linked list computes the pass of the model with all links right, and needs at most one merge exactly when the list is no longer than two runs |
| `HashSort.Sort` | include/bearlang/uthash.h:970-1052 | ends, keeps the whole invariant, and leaves application order a permutation, for a total preorder sorted with equals in their old order; only `prev`, `next`, head and tail are written, and the map the table stands for is unchanged |
| `Symbols.SymbolsAreNames` | runtime/src/utils.c:58-82 | in every run with names of at most 31 bytes: symbols are equal exactly when their names are, ids are 0, 1, 2 and so on, and the table holds just the names asked for |
| `Symbols.SameSymbolExactly` | runtime/src/utils.c:58-82 | in every table, whichever of several entries a search prefers, asking twice for a name gives one symbol exactly when it has at most 31 bytes |
| `Symbols.FoundUnlessShared` | runtime/src/utils.c:58-82 | in every table that calls have built, a symbol whose name has at most 31 bytes is found under it unless a longer name begins with it |
| `Symbols.NewestFinds` | include/bearlang/uthash.h:849-853 | taking the newest of several entries, which goes to the front of its chain, is such a search |
| `Symbols.RightNameExactly` | runtime/src/utils.c:49-82 | a call gives a symbol of the name asked for exactly when no longer name with those first 31 bytes was made before |
| `Environment.NearestEnclosing` | runtime/src/ctx.c:121-132 | a plain name means the value last written in the nearest enclosing context where that value is not null, and nothing exactly when there is no such context |
| `Environment.WriteSeen` | runtime/src/ctx.c:135-160 | a write shows under its own name only, at once in its context, and in no context that is not inside it; writing null uncovers the enclosing binding |
| `Environment.Qualified` | runtime/src/ctx.c:104-119 | for any number of parts, `p::q` means q looked up in the context that p means |
| `Environment.QuotedName` | runtime/src/ctx.c:103-103 | a name behind a quote means the symbol of that name, bound or not |
| `Environment.Context.Grow` | runtime/src/ctx.c:140-154 | the copy loop keeps every value and key under its id and leaves the new places empty |
| `Environment.Runtime.MkSymbol` | runtime/src/utils.c:58-82 | known names keep their symbol, new ones get the next id, and no binding anywhere changes |
| `Environment.Runtime.NewContext` | runtime/src/ctx.c:75-91 | a new empty context inside its parent; nothing else changes |
| `Environment.Runtime.Set` | runtime/src/ctx.c:135-160 | the write is recorded for the parent if `write_to_parent` is set and for the context itself otherwise, and a plain name then resolves there to the value written; the arrays stay in step with the history of writes by name, across growth |
| `Environment.Runtime.Get` | runtime/src/ctx.c:99-133 | the lookup through ids and arrays answers what the history of writes says, interning parts of names on the way without changing a binding or an older symbol |
| `Sexp.RoundTripExactly` | runtime/src/sexp.c:80-118 | in every symbol table and for every tree of its symbols: the tree is read back from its printed tokens exactly when it holds neither `do` nor `while` (the printer has no case for them), every name has at most 31 bytes and every name finds its own symbol |
| `Sexp.RoundTripUnshared` | runtime/src/sexp.c:80-118 | where no longer name begins with a name of the tree, that is exactly when it holds neither `do` nor `while` and every name has at most 31 bytes |
| `Sexp.ReadAgainExactly` | runtime/src/sexp.c:80-118 | from a table whose names have at most 31 bytes: whatever is read from any tokens comes back from printing and reading again exactly when it holds neither `do` nor `while` and every name has at most 31 bytes |
| `Sexp.FormLeaves` | runtime/src/sexp.c:80-118 | for every token stream the leaves of what is read are the words consumed, in order: numbers, `if`, `do` and `while` as themselves, a name as a symbol of that name or of a longer one that begins with it |
| `Sexp.LongThenPrefix` | runtime/src/sexp.c:99-102 | a name of more than 31 bytes and then its first 31, in a list, are read as the long name twice |
| `Sexp.ClosersChangeNothing` | runtime/src/sexp.c:13-40 | closing parentheses behind a stream change nothing that is read; as many as there are lists open are consumed |
| `Sexp.CutOff` | runtime/src/sexp.c:13-40 | a stream that ends with k lists open reads as the stream with the k closing parentheses appended |
| `Sexp.ItemsRest` | runtime/src/sexp.c:13-40 | reading a list stops behind the parenthesis that closes it by count, or at the end of the input |
| `Sexp.Scanner.Form` | runtime/src/sexp.c:80-118 | one call consumes and returns what the reader function says, with the symbols it interns |
| `Sexp.Scanner.Items` | runtime/src/sexp.c:13-40 | the loop that extends the list reads what the reader function says |
| `SexpText.Serialize` | runtime/src/sexp.c:209-226 | the appending loop, turning the last space into the parenthesis, prints the elements with single spaces between |
| `SexpText.LexText` | runtime/src/lexer.l:14-41 | lexing the printed text of any tree with proper names gives its printed tokens, whatever follows |
| `SexpText.WordCharsExactly` | runtime/src/lexer.l:23-24 | which characters make a word |
| `SexpText.LexSkips` | runtime/src/lexer.l:22-33 | blanks and characters that no rule takes give no token |
| `SexpText.WordsInParticular` | runtime/src/lexer.l:16-21 | the key words and numbers: one sign is understood, more leave zero |
| `SexpText.TextInParticular` | runtime/src/sexp.c:151-230 | a concrete tree letter for letter |
| `SexpText.TextRoundTripExactly` | runtime/src/sexp.c:151-230 | printing a tree and reading the text gives the tree back exactly when its names are ones the lexer gives out, have at most 31 bytes and find their own symbols, and it holds neither `do` nor `while` |
| `SexpText.LongThenPrefixText` | runtime/src/sexp.c:99-102 | the text of a long name and its first 31 bytes in parentheses is read as the long name twice |
| `Splitting.PiecesAreCut` | runtime/src/string_ops.c:38-58 | no piece holds the separator, and each piece but the last ends where the first separator began |
| `Splitting.JoinedAgain` | runtime/src/string_ops.c:38-58 | joining gives the string back, or the string without one final separator when nothing stands behind the last cut |
| `Splitting.SplitAgain` | runtime/src/string_ops.c:21-58 | a list of pieces so cut, the last not empty, comes back from splitting what it joins to |
| `Splitting.NoSeparatorExactly` | runtime/src/string_ops.c:38-43 | no piece of a split holds the separator exactly when the string is not the separator itself |
| `Splitting.TailSubstr` | runtime/src/string_ops.c:31-36 | ends the string in the buffer at the first separator and gives the place behind it, or changes nothing |
| `Splitting.SplitStr` | runtime/src/string_ops.c:38-58 | cutting the buffer in place and reversing the collected list gives those pieces; the empty string gives null |
| `Splitting.JoinStr` | runtime/src/string_ops.c:21-29 | the pieces with the separator between them, and null for none |
| `DynamicArray.UtArray.Reserve` | include/bearlang/utarray.h:90-98 | the contents are kept; with room nothing moves, without it all slots move into the fewest doublings that give room; the slots are 0 or eight doubled, and the slots moved so far stay below the slot count |
| `DynamicArray.UtArray.PushBack` | include/bearlang/utarray.h:100-104 | appends, moves the slots only when all are taken, and keeps the slots below twice the elements where they were |
| `DynamicArray.UtArray.Resize` | include/bearlang/utarray.h:156-175 | cuts the contents or fills them with zeros to the length asked for |
| `DynamicArray.UtArray.InsertAll` | include/bearlang/utarray.h:123-133 | inserts at the index, behind zeros when the index is past the end |
| `DynamicArray.UtArray.InsertArray` | include/bearlang/utarray.h:135-154 | inserts another array's elements and leaves that array alone; an empty one does nothing |
| `DynamicArray.UtArray.Erase` | include/bearlang/utarray.h:181-193 | takes out exactly the range, closing the gap |
| `DynamicArray.PushEach` | include/bearlang/utarray.h:90-104 | m pushes from empty give the m elements in order and move fewer than 2m elements through regrowth |

## Left out

- DigestContext.Sha1.Update: pieces that make the 32-bit sum of position and length wrap, where C writes behind the buffer (`WrapLooksShort`).
- Environment.Runtime.MkSymbol: names of more than 31 bytes, for which see `SameSymbolExactly` and `RightNameExactly`; the table is taken as the map that `HashDict` proves it to be.
- Environment.Runtime.Get: contexts with their own `ctx_get`, and null or non-symbol keys; `::` behind a value that is no context reads another union member in C and is the outcome `Broken`.
- Environment.Runtime.Set: a context that writes to its parent must have one.
- Splitting.SplitStr: the empty separator, for which the loop of the original does not end.
- Dns.EncodeName: `len` is the length of the zero-terminated name, as every caller passes it.
- Limits of C integer types where no line above names them: lengths and positions are unbounded (base64, for one, indexes with `int`).
- HashTable.Table.Add: allocation succeeds and the 32-bit counters do not wrap; an item's key and hash stay as they are while it is stored.
- Mqtt.AnyCutPublishes: topics of more than 65535 bytes, whose length field is cut off, flags from 64 on, which change the command, and messages of 2^31 bytes or more, whose length the parser cannot return.
- MqttConnection.Connection.ParseMessage: malformed messages that make C read behind the buffer are the outcome `OutOfBounds`.
- WebSocketConnection.Connection.DeliverData: a final empty continuation with no message open makes a size wrap in C, and a close whose length narrows to -1 with no zero in its payload is searched for one behind it; both are the outcome `Undefined`.
- ChunkedBody.BodyReader.HandleChunked: chunk sizes near 2^64, whose end wraps; after the zero chunk the body takes no more bytes.
- DynamicArray.UtArray.InsertAll: the copy, init and destructor hooks of element types, and overlapping source and destination.
- WebSocket.AnyCutDelivers: frames behind a close, which section 5.5.1 of RFC 6455 forbids; the loop takes those of the same arrival like any others, later ones may find the connection closed.
- SexpText.LexText: strings, doc strings and comments; the model of the lexer stops at the first double quote or semicolon.
- SexpText.TextRoundTripExactly: symbols that were not read but made from some other string of more than 31 bytes.
- Sexp.Scanner.Form: line numbers and string tokens (`unescape` starts from a flag it does not initialise).
- UriPath.Normalize: input and output either are one array or do not overlap.
- Sockets, select and poll, SSL back ends, timers, CGI, SSI, WebDAV, file serving and the other platforms of mongoose: input and output.
- The round functions of SHA-1 and MD5 and the hash functions of uthash: parameters of the theorems.
- Random masks and times: parameters.
- `HASH_SELECT`, which does not set `tail` of the destination, and bloom filters.
- `mg_match_prefix_n`, `mg_parse_date_string`, `str_replace`: no clean specification covers what they do.
- `bl_eval` and the built-in operators, the value pool, the garbage collector and GMP; numbers are integers.
- Headers, multipart bodies, JSON and the other parsers of mongoose: they would add members of the kind already here.
