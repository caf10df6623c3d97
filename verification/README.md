# Verification of the protocol code of the OwnTracks tracker gateway

This project models the byte-level codecs, stream reassemblers and linked structures that the
gateway and its bundled libraries (`mongoose.c`, `json.c`, `qtripp.c`, `qlog.c`) are built on, and
proves what they promise: nothing is lost or invented between sender and receiver, whatever the
network does to the stream, and the structures keep their invariants through every operation.

Where the source updates a buffer or a structure in place, the model is a class or a method on an
array with the source's loops, proved equal to a function; the properties are then lemmas about that
function. Octets are integers from 0 to 255, sizes are unbounded unless the source's width matters
(64-bit sums of WebSocket lengths, 16-bit CoAP and MQTT fields, 32-bit counters of the hashes), and
these are written out.

| file | models |
|---|---|
| Bytes.dfy | octets, concatenation, network byte order, exclusive or, memmove, memcpy and memset |
| WebSocketFrames.dfy | the frame format of sections 5.2 and 5.3 of RFC 6455, written and read |
| WebSocketReceiver.dfy | the receiver as a state machine, its independence from how TCP cuts the stream, the order of frames |
| WebSocketMessages.dfy | messages in fragments with control frames in between, end to end |
| WebSocketConnection.dfy | the connection: sending, unmasking in place, defragmenting in place, the handler loop |
| WebSocketPeers.dfy, WebSocketExamples.dfy | a sender's calls, whole or in parts, read by a receiver; the frames of section 5.7 of RFC 6455 |
| CoapCodec.dfy, CoapMessage.dfy | the message format of sections 3 and 3.1 of RFC 7252; the linked option list, size computation, composer and parser |
| CoapOctets.dfy | the octets of a CoAP message as figures 7 and 8 of RFC 7252 lay them out, and that exactly these are parsed and composed |
| Utf8.dfy, JsonNumbers.dfy, JsonStrings.dfy, JsonText.dfy | UTF-8 and surrogates, number lexemes, string literals, the grammar and the printed text of JSON |
| JsonGrammar.dfy, JsonLayout.dfy | every JSON text with all its escapes and white space, and its meaning, apart from the parser; where the printers put commas, line ends and space |
| JsonRoundTrip.dfy, JsonEscapes.dfy | printing and parsing undo each other; where U+001F in a decoded value comes from |
| StringBuffer.dfy, JsonParser.dfy, JsonPrinter.dfy | the growing buffer, the recursive-descent parser from a terminated string to linked nodes, the two printers from linked nodes |
| JsonTree.dfy, JsonDelete.dfy, JsonCheck.dfy | the doubly linked nodes: appending, prepending, removing, deleting, and checking any nodes whatever |
| JsonLinked.dfy | which value a linked node stands for, and what a call of the parser adds to the nodes |
| UriPath.dfy | in-place path normalisation |
| HttpChunked.dfy | chunked transfer coding collapsed in the receive buffer |
| BlockHash.dfy, HashOctets.dfy | streaming SHA-1 and MD5 around a transform that is a parameter; their padding and digests octet by octet |
| Mqtt.dfy, MqttStream.dfy, MqttConnection.dfy | MQTT packets; streams of them and their cuts into reads; the connection: handler loop and sending |
| MqttPackets.dfy | each packet in the numbers of MQTT 3.1.1, as it is read and as it is sent |
| Qlog.dfy, Tracker.dfy | records cut at '$'; the tracker connections as a state machine and as the hash table |
| DnsName.dfy, DnsPointers.dfy | DNS names; what a packet spells along labels and compression pointers |
| Base64.dfy | streaming and one-shot Base64 |

## What turned out not to hold

These are stated with the exact condition under which the code does meet the property.

- A WebSocket payload of exactly 65535 octets is sent with the eight-octet length form (`SenderFormMinimalExactly`).
- The receiver's order checks miss exactly two violations of section 5.4 of RFC 6455: a first fragment inside a message and a continuation outside one (`OrderIsEnforcedExactly`, `OrphanContinuation`, `SecondFirstFragment`). After the first of these the unread octets may even become more (`UnreadFallsExactly`).
- CoAP options with a number or a length above 65535 are composed but not parsed back (`RoundTripExactly`, `WideNumberIsLost`).
- JSON strings with the octet 0x1F are written raw and refused by the parser, a decoded `\u001F` cannot be decoded again after being written, and numbers outside the grammar are written as null (`RoundTripExactly`, `UnitSeparatorIsLost`, `EscapedSeparatorIsLost`, `BadNumberBecomesNull`, `DecodeEmitDecode`).
- json_append_element and its siblings accept a root that is above the parent and then build a cycle (`AttachedRankedExactly`, `AttachedAboveIsCyclic`, `SelfAppendIsCyclic`). json_check refuses an array appended to itself but never ends on two arrays appended to each other (`SelfAppendFails`, `KnotNeverEnds`).
- The guard of cs_sha1_update is right exactly while its 32-bit sum does not wrap (`GuardExactly`, `GuardFails`); cs_md5_update counts only the low 32 bits of a piece's length (`PieceCountedExactly`, `HugePieceBreaksPadding`).
- The length of a chunked message is meant to be that of its header and body; it also counts what follows the empty chunk, so it is right exactly if nothing does (`HandleChunked`, `NextRequestIsCounted`).
- MQTT topics from 65536 octets and handshakes whose remaining length is 65536 or more are not parsed back (`PublishRoundTripExactly` with `LongTopicIsLost`, `SubscribeRoundTripExactly`, `ConnectRoundTripExactly` with `LongClientIdIsLost`).
- parse_mqtt reads the identifier of an acknowledgement without asking whether the packet has one: from a packet with fewer than two octets it takes those of the next one, and the message depends on how the stream was cut into reads (`ShortAckReadsBehind`, `ShortAckDependsOnReads`). The exact conditions are in `ParseExtendExactly` for one packet, `ReadsDoNotMatterExactly` for every cut of a stream and `DrainStreamExactly` for a stream of packets; the acknowledgements the library writes always have room (`AckRoundTrip`).
- mg_dns_encode_name accepts labels of 64 to 127 octets and empty labels, which are not read back (`NameRoundTripExactly`, `LongLabelIsLost`, `EmptyLabelEndsName`).

## Model

| member | source | states |
|---|---|---|
| `Bytes.Move` | mongoose.c:5279-5283 | memmove towards the front of one buffer, or between two: the destination gets the old source octets, nothing behind it changes |
| `Bytes.XorIsBitwise` | mongoose.c:9407-9412 | a bit of the exclusive or of two octets is set exactly if they differ in it |
| `Bytes.BigEndianAt` | mongoose.c:9520-9530 | in network byte order octet i of k is digit k - 1 - i to base 256 |
| `Bytes.HexValueIsPlace` | json.c:1299-1342 | the value of a hexadecimal digit is its place among 0 to 9 and a to f in either case; written digits are in upper case |
| `WebSocketFrames.MaskedTwice` | mongoose.c:9407-9412 | unmasking undoes masking with the same mask |
| `WebSocketFrames.ParseWire` | mongoose.c:9373-9412 | a written frame of any length form, masked or not, in front of anything is read as exactly its flags and payload |
| `WebSocketFrames.ParseProperPrefix` | mongoose.c:9373-9391 | every proper prefix of a written frame is read as not yet there |
| `WebSocketFrames.ParseExtend` | mongoose.c:9373-9397 | what is read as a whole frame, or as an overflow, stays so when more arrives |
| `WebSocketFrames.ParseSound` | mongoose.c:9373-9412 | whatever is read as a whole frame is a frame as the writer would write it: the reader accepts nothing else |
| `WebSocketFrames.SenderFormMinimalExactly` | mongoose.c:9515-9527 | the sender picks the shortest length form section 5.2 of RFC 6455 allows for every length except exactly 65535 |
| `WebSocketFrames.HeaderOctets` | mongoose.c:9509-9544 | flags, mask bit, length code, length octets and mask of a header, one by one, in the numbers of section 5.2 of RFC 6455 |
| `WebSocketFrames.PayloadOctets` | mongoose.c:9547-9553 | behind the header lies the payload; under a mask, octet i is the bitwise exclusive or of payload octet i and mask octet i modulo 4 |
| `WebSocketFrames.OverflowExactly` | mongoose.c:9390-9397 | a frame is refused for its length exactly if header and payload together would have 2^64 octets or more |
| `WebSocketExamples.ShortFrames` | mongoose.c:9509-9569 | whole, first and last text frames and a ping of fewer than 126 octets begin with 0x81, 0x01, 0x80 and 0x89, sent and read |
| `WebSocketExamples.MaskedFrames` | mongoose.c:9407-9412 | 81 85 37 FA 21 3D 7F 9F 4D 51 58 is what is sent for Hello under that mask, and is read as Hello |
| `WebSocketExamples.LongFrames` | mongoose.c:9516-9532 | 256 octets begin with 82 7E 01 00, 65536 with 82 7F and eight octets of length, sent and read |
| `WebSocketReceiver.TryShrinks` | mongoose.c:9399-9471 | every delivery makes the receive buffer shorter, so the loop of the handler ends on every input |
| `WebSocketReceiver.SplitInvariance` | mongoose.c:9608-9616 | whatever the stream, however it is cut into reads, the user sees the same events and the same octets stay behind |
| `WebSocketReceiver.SplitInvarianceOfReplies` | mongoose.c:9608-9616 | a stream without a fault leaves the same whole connection, replies included, for every cut |
| `WebSocketReceiver.TryFrame` | mongoose.c:9353-9471 | on a frame in the order of section 5.4 of RFC 6455 one call consumes exactly that frame, extends or hands over the message under assembly, and answers pings and closes |
| `WebSocketReceiver.TryPartial` | mongoose.c:9391-9399 | while a frame in order is still arriving nothing is consumed or changed |
| `WebSocketReceiver.OrderIsEnforcedExactly` | mongoose.c:9356-9372 | refusal and the order of section 5.4 of RFC 6455 agree on a frame exactly unless it is a data fragment that opens a message inside another one or continues none: these alone slip through |
| `WebSocketReceiver.FaultIsAnswered` | mongoose.c:9356-9397 | a frame that is refused is answered with one Close frame that gives the reason, the connection is marked for closing, and no octet is consumed |
| `WebSocketReceiver.TextIsAscii` | mongoose.c:9358-9372 | the octets of a reason are the codes of its characters, in order |
| `WebSocketReceiver.UnreadFallsExactly` | mongoose.c:9414-9442 | every frame that is accepted makes the unread octets fewer, except exactly a second first fragment no longer than the octets collected before it |
| `WebSocketReceiver.SettleFrames` | mongoose.c:9323-9471 | any number of whole frames in order is consumed, followed by octets on which the handler waits, with the messages, replies and assembly state that the order of frames prescribes |
| `WebSocketReceiver.StreamOfFrames` | mongoose.c:9608-9616 | frames in order, then part of one more, in any reads: only that part and the message under assembly are left |
| `WebSocketMessages.MessagesArrive` | mongoose.c:9414-9471 | a sequence of unfragmented frames and fragmented messages with control frames in between yields each message and each control frame once, in order, with its own data |
| `WebSocketMessages.EveryOrderIsItems` | mongoose.c:9353-9372 | every order of frames the standard allows that ends between messages is such a sequence |
| `WebSocketMessages.EndToEnd` | mongoose.c:9323-9616 | messages in any fragments, masked or not, in any reads, arrive exactly once each; what is left is the frame still arriving; each ping and close has been answered |
| `WebSocketMessages.OrphanContinuation` | mongoose.c:9414-9442 | a final continuation outside a message is not refused: its first data octet is taken for the flags of a message |
| `WebSocketMessages.SecondFirstFragment` | mongoose.c:9414-9429 | a first fragment inside a message is not refused: the octets collected before take the place of the new message in front, and as many octets at the end of the new message are unread and will be taken for frames |
| `WebSocketConnection.Connection.constructor` | mongoose.c:9305-9308 | a connection starts with empty buffers and nothing under assembly |
| `WebSocketConnection.Connection.SendHeader` | mongoose.c:9509-9545 | the header appended is the one of the frame, and the position where masking starts |
| `WebSocketConnection.Connection.MaskFrame` | mongoose.c:9547-9553 | what was sent after the position is masked where it lies; position 0 masks nothing |
| `WebSocketConnection.Connection.WriteFrame` | mongoose.c:9555-9561 | the send buffer grows by exactly the octets of one frame |
| `WebSocketConnection.Connection.SendFrame` | mongoose.c:9555-9567 | the send buffer stays the octets of the frames sent so far; a close frame marks the connection |
| `WebSocketConnection.Connection.Close` | mongoose.c:9314-9321 | one close frame with the data is sent and the connection is marked for closing |
| `WebSocketConnection.Connection.Unmask` | mongoose.c:9407-9412 | the payload is unmasked in place and nothing around it changes |
| `WebSocketConnection.Connection.ReadLengths` | mongoose.c:9373-9389 | the three lengths read from an unfinished or whole header are those of the frame format |
| `WebSocketConnection.Connection.DeliverData` | mongoose.c:9323-9474 | one call changes the connection exactly as one step of the receiver, and answers 1 exactly if a frame was delivered |
| `WebSocketConnection.Connection.DeliverInOrder` | mongoose.c:9373-9399 | the same behind the checks of the first octet, with the lengths added as 64-bit numbers |
| `WebSocketConnection.Connection.UnmaskPayload` | mongoose.c:9407-9412 | the payload of the frame that was received lies in the buffer, the octets around it unchanged |
| `WebSocketConnection.Connection.DeliverFrame` | mongoose.c:9399-9471 | a whole frame is accepted as fragment or handed over |
| `WebSocketConnection.Connection.CollectFragment` | mongoose.c:9414-9442 | the data moves over the header behind what is collected; the last fragment hands the message over and leaves only the unread octets |
| `WebSocketConnection.Connection.HandCollected` | mongoose.c:9431-9442 | the collected octets become one message with FIN set and are removed |
| `WebSocketConnection.Connection.HandFrame` | mongoose.c:9443-9470 | a ping is answered with its data, a close is answered, the frame is handed over and removed |
| `WebSocketConnection.Connection.Receive` | mongoose.c:9608-9616 | one read event brings the connection to the state in which no further frame can be delivered |
| `WebSocketConnection.LengthsDecide` | mongoose.c:9390-9397 | the 64-bit sum of header and data length tells overflow, whole frame and unfinished frame apart correctly, although it wraps |
| `WebSocketConnection.TryByLengths` | mongoose.c:9390-9399 | the branches on that sum are the receiver's outcome |
| `WebSocketPeers.SentWireIsFrames` | mongoose.c:9555-9567 | the send buffer is a stream of whole frames |
| `WebSocketPeers.SentArrives` | mongoose.c:9509-9616 | all that one side sends arrives at the other once and in order, with its opcode and data, for every mask and every cut into reads: whole messages, control frames, and messages sent in parts with WEBSOCKET_DONT_FIN and continuations, with control frames between the parts; the peer has answered every ping with a pong and every close, is closing exactly if there was a close, and has nothing left over |
| `CoapCodec.InsertSorted` | mongoose.c:11578-11611 | adding an option keeps the list sorted by number |
| `CoapCodec.InsertStable` | mongoose.c:11578-11611 | the new value comes after the others of its number, and no other number's values change |
| `CoapCodec.InsertAllIsStableSort` | mongoose.c:11568-11614 | options added in any order end up sorted, with each number's values in the order they were added |
| `CoapCodec.StableSortUnique` | mongoose.c:11568-11614 | there is only one list with these properties |
| `CoapCodec.ExtensionReadsBack` | mongoose.c:11706-11734 | the nibble and extension octets of every 16-bit delta or length are read back |
| `CoapCodec.OptionReadsBack` | mongoose.c:11752-11829 | one composed option in front of anything is read back with its delta, its value and exactly what follows |
| `CoapCodec.OptionsReadBack` | mongoose.c:11752-11829 | a composed option list, in front of nothing or a payload marker, is read back in order and stops at the marker |
| `CoapCodec.ParseEncode` | mongoose.c:11836-12055 | parsing a composed message gives its type, code, id, token, options and payload, and the flags of exactly the fields present |
| `CoapCodec.RoundTripExactly` | mongoose.c:11836-12055 | of the messages the composer accepts exactly those with option numbers and value lengths below 65536 survive |
| `CoapCodec.WideNumberIsLost` | mongoose.c:11754-11809 | a message with the single option number 65536 is composed but never parsed back |
| `CoapOctets.OptionIsRead` | mongoose.c:11752-11829 | an option written with the nibbles and extensions of figure 8 of RFC 7252 is read, its delta and length in 16 bits, whatever is behind it |
| `CoapOctets.ReadIsOption` | mongoose.c:11752-11829 | and nothing else is read as an option |
| `CoapOctets.OptionsAreRead` | mongoose.c:11752-11834 | a list of written options up to the end or the octet 0xFF is read with the sums of its deltas, in 16 bits, as numbers |
| `CoapOctets.ReadIsOptions` | mongoose.c:11752-11834 | and nothing else is read as a list of options |
| `CoapOctets.FaultIsFound` | mongoose.c:11763-11816 | behind written options a first one that cannot be read makes the message a format error if a nibble is 15, and one with too few octets otherwise |
| `CoapOctets.MessageIsRead` | mongoose.c:11836-11861 | four octets of header with version 1, token, options and, behind 0xFF, the payload are parsed to these fields, and each flag tells whether its field is there |
| `CoapOctets.ReadIsMessage` | mongoose.c:11836-11861 | and nothing else is parsed as a message |
| `CoapOctets.FixedFaultIs` | mongoose.c:11621-11704 | fewer than four octets, another version, a token longer than eight octets and a token that is cut off: each with its own fault |
| `CoapOctets.ComposableExactly` | mongoose.c:11937-11984 | a message is composed exactly if type, token, code and identifier fit, its options are in order, and no delta or length exceeds 65804 |
| `CoapOctets.RefusedFor` | mongoose.c:11941-11955 | otherwise the error is the first of type, token, class, detail and options |
| `CoapOctets.MessageIsComposed` | mongoose.c:11986-12055 | every message with 16-bit option numbers and lengths is composed as such octets |
| `CoapOctets.FigureExample` | mongoose.c:11986-12055 | the request and the response of figure 16 of RFC 7252 |
| `CoapMessage.Message.FreeOptions` | mongoose.c:11560-11566 | the list is emptied |
| `CoapMessage.Message.AddOption` | mongoose.c:11568-11614 | the list stays linked and sorted with the tail on its last node, and its contents are the sorted insertion of the new option |
| `CoapMessage.Message.Append` | mongoose.c:11578-11588 | the node becomes the last one |
| `CoapMessage.Message.LinkBefore` | mongoose.c:11602-11609 | the node goes between two neighbours or in front of the first node |
| `CoapMessage.Message.FindPlace` | mongoose.c:11590-11600 | the search stops at the first larger number and keeps the node in front of it |
| `CoapMessage.Message.CalculatePacketSize` | mongoose.c:11937-11984 | the error is the one of the first bad field, and the size of an acceptable message is exactly the number of octets composed |
| `CoapMessage.Message.Compose` | mongoose.c:11986-12055 | the composed octets are appended to the buffer and fill the computed size exactly |
| `CoapMessage.Message.Fill` | mongoose.c:11997-12052 | the writes end exactly as many octets further as were computed |
| `CoapMessage.Message.ComposeOptions` | mongoose.c:12022-12046 | walking the list writes each option with the delta to the one before |
| `CoapMessage.Message.Parse` | mongoose.c:11836-11861 | the parsed message or the fault, with the flags of the fields found; on success the list is linked and sorted |
| `CoapMessage.Message.ParseFixed` | mongoose.c:11621-11704 | the fixed header and the token: the fault of the first bad field, else the values and where the options start |
| `CoapMessage.Message.ParseBody` | mongoose.c:11849-11860 | the options and the payload behind the marker |
| `CoapMessage.Message.ParseOptions` | mongoose.c:11752-11834 | the loop adds each option read with its accumulated 16-bit number; after a fault no option is left |
| `CoapMessage.ParseOption` | mongoose.c:11763-11816 | one option is cut out at the current position, or its fault |
| `CoapMessage.GetExtension` | mongoose.c:11706-11734 | the extended value and how many octets it took, or that the octets are missing |
| `Utf8.ValidateCz` | json.c:152-205 | the length of the character at the cursor by the grammar of section 4 of RFC 3629, or 0, without reading past the terminator |
| `Utf8.Validate` | json.c:207-220 | exactly the sequences of such characters are accepted |
| `Utf8.TextConcat` | json.c:207-220 | texts put after each other are a text |
| `Utf8.ReadOfWrite` | json.c:227-300 | reading a written scalar value gives it back |
| `Utf8.WriteOfRead` | json.c:227-300 | writing the value read from a character gives the character back |
| `Utf8.ReadCharIsTable` | json.c:227-262 | the value of a character is put together from the bits that the table of section 3 of RFC 3629 names |
| `Utf8.SurrogatesInverse` | json.c:303-327 | surrogate pairs and the values from 0x10000 to 0x10FFFF correspond one to one, and no other pair is accepted |
| `Utf8.SurrogatesAreTable` | json.c:303-313 | a pair stands for 0x10000 and twenty bits, the upper ten from the first half, which comes from 0xD800 to 0xDBFF, the lower ten from the second |
| `Utf8.ReadOfWriteHex16` | json.c:1299-1342 | four written hexadecimal digits are read back |
| `Utf8.WriteOfReadHex16` | json.c:1299-1342 | writing the value of four hexadecimal digits gives their upper-case form |
| `Utf8.ReadHex16IsSum` | json.c:1299-1328 | four digits are read exactly if all are hexadecimal, the first one worth 4096 |
| `Utf8.ParseHex16` | json.c:1299-1328 | the value of four hexadecimal digits at the cursor, or nothing, without reading past the terminator |
| `JsonNumbers.ValidIsGrammar` | json.c:928-974 | number_is_valid accepts exactly the grammar of section 6 of RFC 8259 |
| `JsonNumbers.NumberReadsBack` | json.c:928-974 | a valid lexeme in front of anything that would not prolong it is taken whole |
| `JsonNumbers.NumberTaken` | json.c:928-974 | what parse_number takes is a valid lexeme by itself |
| `JsonNumbers.WrittenIsValid` | json.c:928-974 | minus, digits, fraction, and exponent with either letter and either sign are valid wherever the standard allows them |
| `JsonNumbers.ValidIsWritten` | json.c:928-974 | and no other lexeme is valid |
| `JsonStrings.NextOfQuote` | json.c:814-905 | every written character is read back, except U+001F, which is written raw and refused |
| `JsonStrings.StringRoundTrip` | json.c:803-926 | a NUL-free UTF-8 text comes back exactly unless it contains U+001F, and then the literal is refused |
| `JsonStrings.ParsedText` | json.c:803-926 | what a literal stands for is NUL-free UTF-8 |
| `JsonGrammar.StringIsRead` | json.c:803-926 | every string literal, of characters, escapes of one letter, escapes of four digits in either case and pairs of these, is read as the text it means |
| `JsonGrammar.ReadIsString` | json.c:803-926 | and nothing else is read as a string literal |
| `JsonGrammar.CharacterIsEscaped` | json.c:849-872 | every character but U+0000 is read from its escape, from U+10000 on from the escapes of its two surrogates in order |
| `JsonGrammar.SurrogateNeedsItsPair` | json.c:855-864 | an escaped surrogate is accepted exactly if it is a first half and the escape of a second half follows |
| `JsonGrammar.TextIsDecoded` | json.c:363-379 | every text of the grammar of RFC 8259, with white space wherever it may be, is decoded to the value it means |
| `JsonGrammar.DecodedIsText` | json.c:363-379 | whatever is decoded is such a text, and is decoded to what it means |
| `JsonGrammar.PairExample` | json.c:849-872 | the escapes of D83D and DE00 in a string are decoded to the character U+1F600 |
| `JsonLayout.CompactLayout` | json.c:1044-1094 | on one line: brackets around the elements or members, commas between them, a colon behind each key, no space |
| `JsonLayout.IndentedLayout` | json.c:1057-1120 | on many lines: a line end behind the opening bracket and each comma, the space once a level in front of each part, a space behind each colon, the closing bracket on its own line |
| `JsonLayout.ScalarLayout` | json.c:984-1010 | null, true, false, and numbers as they are, null for those outside the grammar |
| `JsonLayout.EscapesOfMarks` | json.c:1142-1149 | a quotation mark and a backslash are written behind a backslash |
| `JsonLayout.EscapesOfControls` | json.c:1150-1210 | of the characters below U+001F five are written with their letter and the others with four digits |
| `JsonLayout.OthersAreRaw` | json.c:1170-1226 | every other character is written as it is |
| `JsonLayout.StringLayout` | json.c:1122-1239 | a string is its characters in order between quotation marks, and an octet that begins no character is written as U+FFFD |
| `JsonRoundTrip.ValueReadsBack` | json.c:633-801 | any tree of clean strings, written in any style in front of anything that does not prolong a number, is read back up to exactly there |
| `JsonRoundTrip.DecodeOfEmit` | json.c:363-407 | json_decode of the text of either printer gives the tree with numbers outside the grammar as null, or nothing if some string has U+001F |
| `JsonRoundTrip.RoundTripExactly` | json.c:363-407 | the tree comes back, in member order and with duplicate keys, exactly if no string has U+001F and every number is valid |
| `JsonRoundTrip.UnitSeparatorIsLost` | json.c:1196-1200 | a one-character string shows the exception |
| `JsonRoundTrip.EscapedSeparatorIsLost` | json.c:1196-1200 | the text of the escape \u001F is decoded, and its value cannot be decoded again once written |
| `JsonRoundTrip.BadNumberBecomesNull` | json.c:1278-1281 | 01 is written as null |
| `JsonRoundTrip.DecodedIsSound` | json.c:435-448 | every decoded tree has NUL-free UTF-8 strings and keys and valid numbers, so the assertion in emit_string holds on it |
| `JsonRoundTrip.DecodeEmitDecode` | json.c:363-407 | decoding, writing in any style and decoding again gives the same tree, or nothing if a string has U+001F |
| `JsonEscapes.SeparatorWasEscaped` | json.c:877-879 | a decoded value with U+001F comes from a text that holds the escape of this character |
| `JsonParser.Skip` | json.c:976-982 | the cursor moves to the first character that is no white space |
| `JsonParser.ParseNumberAt` | json.c:928-974 | the digits loops end where the grammar's longest number ends, or report none |
| `JsonParser.ParseUnicode` | json.c:849-872 | the escapes of one code unit or a surrogate pair; a NUL and an unpaired surrogate are refused |
| `JsonParser.ParseString` | json.c:803-926 | with and without output the same verdict and end; the text built in the buffer is the literal's; at each character the reservation of four octets suffices |
| `JsonParser.ParseValueAt` | json.c:633-701 | with and without output the same verdict and end, never past the terminator; with output a tree for the grammar's value beside the nodes that were there, whose lists and keys do not change; after a failure no node, key or string is left |
| `JsonParser.MakeLeaf` | json.c:497-542 | a new node for the value, which owns its string |
| `JsonParser.AddChild` | json.c:572-600 | the tree just built becomes the last child of the array or object under construction, which stands for one value more |
| `JsonParser.Discard` | json.c:742-744 | deleting the array or object under construction restores exactly the nodes and keys there were, and frees every string it owned |
| `JsonParser.ParseArrayAt` | json.c:703-745 | the same for arrays; a failure deletes the array with the elements it has so far |
| `JsonParser.ParseObjectAt` | json.c:747-801 | the same for objects, members in order and with duplicate keys |
| `JsonParser.ParsePairAt` | json.c:764-800 | a key and its value; when the colon or the value is missing the key is freed |
| `JsonParser.ParseKeyAt` | json.c:764-769 | a key up to its colon: exactly one string more if it is kept, none if not |
| `JsonParser.JsonDecode` | json.c:363-379 | the whole text must be one value between white space: then a tree that stands for it, else NULL with nothing left of its nodes, keys and strings; no field of a node that was there changes |
| `JsonParser.JsonValidate` | json.c:435-448 | the verdict is true exactly when json_decode gives a tree, and nothing is built |
| `JsonPrinter.NumberIsValid` | json.c:1278-1281 | exactly the whole lexemes that parse_number takes |
| `JsonPrinter.EmitChar` | json.c:1139-1226 | one character is written escaped within the fourteen octets reserved |
| `JsonPrinter.EmitStringTo` | json.c:1122-1239 | the buffer grows by the quoted text; each reservation covers everything written before the next, the closing quotation mark included |
| `JsonPrinter.EmitValue` | json.c:984-1042 | for a node that stands for a value the buffer grows by the text of the value, compact or indented |
| `JsonPrinter.EmitArray` | json.c:1044-1055 | walking the next pointers writes all elements, with commas between them |
| `JsonPrinter.EmitObject` | json.c:1081-1094 | walking the next pointers writes all keys and members, with commas between them |
| `JsonPrinter.EmitArrayIndented` | json.c:1057-1079 | walking the next pointers writes one element a line, at the next level |
| `JsonPrinter.EmitObjectIndented` | json.c:1096-1120 | walking the next pointers writes one member a line, at the next level |
| `JsonPrinter.JsonStringify` | json.c:381-407 | the text is the one of the value the node stands for and holds no NUL, so the length assertion of sb_finish holds |
| `StringBuffer.SB.constructor` | json.c:57-64 | an empty buffer with one spare octet for the terminator |
| `StringBuffer.SB.Grow` | json.c:72-86 | doubling ends, with enough room and the contents kept |
| `StringBuffer.SB.Need` | json.c:66-70 | after it the room asked for is there |
| `StringBuffer.SB.Put` | json.c:88-104 | the bytes are appended |
| `StringBuffer.SB.PutChar` | json.c:95-99 | the character is appended |
| `StringBuffer.SB.Finish` | json.c:106-111 | the terminator fits, and strlen of the result is the length of the contents |
| `JsonTree.AppendKeeps` | json.c:546-557 | linking a parentless node last keeps every list linked both ways, parented and keyed, and adds it at the end of one list only |
| `JsonTree.PrependKeeps` | json.c:559-570 | the same in front |
| `JsonTree.RemoveKeeps` | json.c:611-631 | unlinking takes the node out of one list, keeps all others, and leaves it a root |
| `JsonTree.AttachedRanked` | json.c:546-570 | attaching a node that is not above the parent leaves the nodes without cycles |
| `JsonTree.AttachedAboveIsCyclic` | json.c:546-570 | attaching a node that is above the parent always closes a cycle: the assertions in the source do not rule it out |
| `JsonTree.AttachedRankedExactly` | json.c:546-570 | attaching a root leaves the nodes without cycles exactly if it is not above the parent |
| `JsonTree.SelfAppendIsCyclic` | json.c:577-583 | an array appended to itself is its own parent, first and last child |
| `JsonLinked.ShowsOne` | json.c:984-1042 | a node stands for at most one value |
| `JsonLinked.ShowsKept` | json.c:546-570 | a tree stands for its value whatever happens to other lists and keys |
| `JsonLinked.GrownAppend` | json.c:703-745 | a tree built beside the nodes that were there, put at the end of the array or object built before it, is part of one tree beside them |
| `JsonLinked.GrownUndone` | json.c:409-433 | what json_delete frees of such a tree is exactly what was not there before |
| `JsonLinked.GrownKeepsCell` | json.c:546-631 | lists and keys determine every pointer: a node that was there has no field changed |
| `JsonTree.Forest.constructor` | json.c:488-495 | no nodes, and the invariant holds |
| `JsonTree.Forest.MakeNode` | json.c:488-544 | a new root without children; all other nodes unchanged |
| `JsonTree.Forest.AppendNode` | json.c:546-600 | the parent's children get the node at the end, with its key, which the node then owns; all lists are kept, and the whole invariant exactly if the node was not above the parent; only the parent, the node and the last child are written |
| `JsonTree.Forest.PrependNode` | json.c:559-609 | the same at the front |
| `JsonTree.Forest.RemoveFromParent` | json.c:611-631 | the node leaves its parent's children, the rest of the invariant is kept, and its key is freed exactly once; a root is left alone |
| `JsonTree.Forest.Release` | json.c:429-431 | a node is freed only when nothing refers to it, no list holds it and its key is freed, and never twice; its string goes with it |
| `JsonDelete.UnderExactly` | json.c:409-433 | what json_delete frees are exactly the nodes from which the parent pointers lead to the node |
| `JsonDelete.UnderDistinct` | json.c:409-433 | no node is freed twice |
| `JsonDelete.DeleteChildren` | json.c:417-427 | the loop frees everything under the node, children first, though each call relinks the list it walks |
| `JsonDelete.Delete` | json.c:409-433 | the node leaves its parent's list, it and everything under it are freed in post-order, with every key and string they own; the invariant holds for the rest and nothing else changes |
| `JsonCheck.PassesExactly` | json.c:1362-1405 | the tests json_check makes along the next pointers hold exactly for doubly linked lists without repetition, with right parents and keys |
| `JsonCheck.Check` | json.c:1344-1412 | on any nodes on which json_check ends, the tests in their order give its verdict |
| `JsonCheck.CheckExactly` | json.c:1344-1412 | json_check ends with true exactly on the roots of finite trees in which every list is doubly linked without repetition, with right parents and keys, and every key and string is UTF-8 |
| `JsonCheck.KnotIsAppended` | json.c:577-583 | appending each of two arrays to the other gives the cells of KnotNeverEnds |
| `JsonCheck.KnotNeverEnds` | json.c:1382-1402 | on two arrays appended to each other it never ends |
| `JsonCheck.SelfAppendFails` | json.c:1383-1384 | an array appended to itself is refused |
| `JsonCheck.CheckEnds` | json.c:1344-1412 | on nodes that keep the invariant it always ends, and only the keys and strings decide |
| `JsonCheck.CheckForest` | json.c:1344-1412 | the verdict on a node of a forest is true exactly if every key and string under it is UTF-8 |
| `JsonCheck.ShownPasses` | json.c:1344-1412 | a node that stands for a value with UTF-8 strings passes, with everything under it |
| `JsonCheck.DecodedPasses` | json.c:363-379 | every key and string json_decode has put under a node is UTF-8 |
| `JsonCheck.DecodedChecks` | json.c:363-379 | json_check ends with true on whatever json_decode builds |
| `UriPath.NormalizesAsStandard` | mongoose.c:5259-5291 | for every path that starts with a slash the result is remove_dot_segments of section 5.2.4 of RFC 3986 |
| `UriPath.NormalizedIsNormal` | mongoose.c:5259-5291 | the result starts with a slash, has no dot segment, and normalising it again changes nothing |
| `UriPath.UnchangedExactly` | mongoose.c:5259-5291 | exactly the paths without dot segments stay as they are |
| `UriPath.SlashInFront` | mongoose.c:5260-5266 | the answer is 0 exactly for a path that does not begin with a slash |
| `UriPath.Example` | mongoose.c:5259-5291 | /a/b/c/./../../g is normalised to /a/g |
| `UriPath.BackDrops` | mongoose.c:5279-5280 | the backtracking removes the last segment and its slash, and never the slash in front |
| `UriPath.ParseComponent` | mongoose.c:5115-5127 | the component up to the next slash, and where the next one starts |
| `UriPath.BackTrack` | mongoose.c:5278-5280 | the two backtracking lines cut the output at an earlier slash |
| `UriPath.Advance` | mongoose.c:5271-5286 | one round on buffers that may be the same: the octets not yet read are untouched |
| `UriPath.Normalize` | mongoose.c:5259-5291 | the buffer, in place or not, holds the normalised path; the write index never passes the read index and nothing behind the path changes; other input gives 0 |
| `HttpChunked.HexReadsBack` | mongoose.c:6867-6874 | the hexadecimal length is read back |
| `HttpChunked.ParseWire` | mongoose.c:5842-5873 | a sent chunk in front of anything is read as exactly its data and size |
| `HttpChunked.ParseProperPrefix` | mongoose.c:5842-5873 | every proper prefix of a sent chunk is incomplete |
| `HttpChunked.ParseExtend` | mongoose.c:5842-5873 | a chunk that has been read stays the same when more arrives |
| `HttpChunked.CollapseResumes` | mongoose.c:5886-5907 | collapsing what is there and again after more has arrived is collapsing all at once |
| `HttpChunked.WholeBody` | mongoose.c:5886-5930 | a body sent as chunks gives its data in order, ends with the empty chunk and leaves what follows it |
| `HttpChunked.CutBody` | mongoose.c:5886-5907 | a body cut inside a chunk gives the data of the chunks before it and leaves exactly what there is of that chunk |
| `HttpChunked.ShortChunk` | mongoose.c:6867-6874 | a chunk of fewer than sixteen octets is one digit, CR LF, the data, CR LF, sent and read |
| `HttpChunked.LongerChunk` | mongoose.c:6867-6874 | the size line of 26 octets is 1A |
| `HttpChunked.ParseChunk` | mongoose.c:5842-5873 | the scan inside the buffer answers 0 exactly for an incomplete chunk, else where the data lies and how long the chunk is |
| `HttpChunked.CollapseFront` | mongoose.c:5886-5899 | the loop leaves the body extended by all complete chunks at the front and the unparsed octets behind the gap, and consumes something exactly if there is a complete chunk |
| `HttpChunked.ChunkedBody.Append` | mongoose.c:6060-6079 | what arrives goes behind what is there, in the same block or a larger one |
| `HttpChunked.ChunkedBody.Show` | mongoose.c:5901-5911 | the unparsed octets move behind the body, what they leave is cleared, and the event shows the body |
| `HttpChunked.ChunkedBody.Discard` | mongoose.c:5913-5920 | the body is deleted and the unparsed octets move to the front |
| `HttpChunked.ChunkedBody.HandleChunked` | mongoose.c:5875-5930 | body and rest afterwards, with and without deletion; an event is raised exactly if a chunk was complete; after the empty chunk the message ends where the received octets end, which is the end of the body exactly if nothing follows |
| `HttpChunked.NextRequestIsCounted` | mongoose.c:5922-5926 | the first octet of a next request is left behind an empty chunk, and so counted |
| `HttpChunked.ChunkedBody.Receive` | mongoose.c:5875-5930 | for every cut of a stream into reads and every choice of deletions, the data deleted and the body are the stream's chunk data and the rest is the unparsed tail |
| `BlockHash.FoldConcat` | mongoose.c:1318-1336 | blocks folded in pieces are folded as one |
| `BlockHash.CountsOn` | mongoose.c:1323-1324 | the two-word counter with its carry counts bits modulo 2^64 |
| `BlockHash.CountsBytes` | mongoose.c:1342-1346 | the eight octets written at the end are the length in bits, most significant first |
| `BlockHash.CountsLittle` | mongoose.c:1129-1132 | for MD5, least significant first |
| `BlockHash.GuardExactly` | mongoose.c:1326-1326 | the 32-bit sum that decides on a transform is right exactly while buffered octets and length stay below 2^32 |
| `BlockHash.GuardFails` | mongoose.c:1326-1326 | with one octet buffered and a piece of 2^32 - 1 octets the sum is 0 |
| `BlockHash.PieceCountedExactly` | mongoose.c:1078-1080 | MD5 counts a piece right exactly if its length divided by 2^32 is a multiple of 2^29: every piece below 4 GiB is counted right |
| `BlockHash.Md5PaddedExactly` | mongoose.c:1110-1137 | the padding is that of RFC 1321 exactly if the octets counted and the octets of the message agree modulo 2^61 |
| `BlockHash.HugePieceBreaksPadding` | mongoose.c:1078-1080 | a message handed over as one piece of 2^32 octets is padded as if it were empty |
| `BlockHash.LastBlocks` | mongoose.c:1115-1134 | padding adds one block if the length still fits behind the message, else two |
| `HashOctets.Sha1PaddedIs` | mongoose.c:1338-1353 | the padded message of SHA-1: whole blocks, none too many, the message, 0x80, zeros, and the length in bits in network byte order |
| `HashOctets.Md5PaddedIs` | mongoose.c:1110-1134 | the same for MD5, with the digits of the length lowest first |
| `HashOctets.Sha1DigestAt` | mongoose.c:1354-1357 | the digest of SHA-1 is the words in order, each with its most significant octet first |
| `HashOctets.Md5DigestAt` | mongoose.c:1135-1137 | the digest of MD5 is the words in order, each with its least significant octet first |
| `HashOctets.FirstWords` | mongoose.c:1309-1316 | the octets of the words before the first block, as section 3.3 of RFC 1321 and section 6.1 of RFC 3174 list them |
| `BlockHash.Sha1.constructor` | mongoose.c:1309-1316 | the context of the empty message |
| `BlockHash.Sha1.Update` | mongoose.c:1318-1336 | the context is always that of all octets so far, for every way of cutting the message |
| `BlockHash.Sha1.TakeBlocks` | mongoose.c:1327-1334 | the completed block and all whole blocks of the piece are folded in, the rest is buffered; the index does not wrap |
| `BlockHash.Sha1.PadZeros` | mongoose.c:1349-1352 | the padding loop ends after the fewest zeros that leave eight octets free |
| `BlockHash.Sha1.Final` | mongoose.c:1338-1360 | the digest is the fold of the blocks of section 4 of RFC 3174 over the whole message, whatever the transform |
| `BlockHash.Md5.constructor` | mongoose.c:1075-1080 | the context of the empty message |
| `BlockHash.Md5.Update` | mongoose.c:1075-1108 | the context is always that of all octets so far; the counter takes the low 32 bits of each length |
| `BlockHash.Md5.Take` | mongoose.c:1084-1107 | the buffered block is completed or extended, whole blocks folded in, the rest buffered |
| `BlockHash.Md5.Final` | mongoose.c:1110-1137 | the digest is the fold of the message padded with the counter as it stands |
| `Mqtt.LengthReadsBack` | mongoose.c:10155-10168 | a remaining length of up to five octets is read back |
| `Mqtt.ParseFramed` | mongoose.c:10146-10257 | a packet below 2^28 octets is cut out whole, whatever follows; its body decides between message and malformed, except that an acknowledgement also sees what follows |
| `Mqtt.ParseExtendExactly` | mongoose.c:10220-10226 | when more arrives a packet keeps its size and what is malformed stays so; the message stays the same exactly unless its identifier lies in what has arrived |
| `Mqtt.ShortAckReadsBehind` | mongoose.c:10225-10225 | a PUBACK with nothing in it followed by a PUBLISH gets the identifier 0x3002 from the header of the PUBLISH |
| `Mqtt.ParseProperPrefix` | mongoose.c:10152-10173 | every proper prefix of a packet that parses is incomplete |
| `Mqtt.ParseWhole` | mongoose.c:10170-10173 | the octets of a packet are enough to find it and its size |
| `Mqtt.PublishRoundTripExactly` | mongoose.c:10453-10470 | behind anything already to be sent, a published topic, identifier, quality of service and payload are parsed back exactly if the topic is shorter than 65536 octets |
| `Mqtt.LongTopicIsLost` | mongoose.c:10458-10461 | a topic of 65536 octets is read as an empty one and becomes part of the payload |
| `Mqtt.TopicsReadBack` | mongoose.c:10492-10505 | asking for one topic after the other recovers all topics and qualities of service |
| `Mqtt.SubscribeRoundTripExactly` | mongoose.c:10472-10505 | a subscription is parsed back with its identifier and payload, and its topics come back one by one exactly if all are shorter than 65536 octets |
| `Mqtt.AckRoundTrip` | mongoose.c:10537-10570 | an acknowledgement, with or without return codes, is parsed back with its identifier, whatever follows it |
| `Mqtt.ConnectReadsBack` | mongoose.c:10180-10216 | a connect packet is parsed back with exactly the strings its flags announce |
| `Mqtt.ConnectRoundTripExactly` | mongoose.c:10383-10451 | the handshake is parsed back with all of the caller's strings exactly if 12 octets, the client identifier and two octets more than each further string together stay below 65536 |
| `Mqtt.AskedLength` | mongoose.c:10388-10445 | this sum is the length of the handshake with uncut strings |
| `Mqtt.LongClientIdIsLost` | mongoose.c:10411-10414 | a client identifier of 65536 octets is sent, and read back, as an empty one |
| `MqttPackets.LengthIsRead` | mongoose.c:10155-10173 | up to four octets with the top bit set and one without are a length, seven bits in each, lowest first; without that one they are not yet a length, and five with it set never become one |
| `MqttPackets.LengthTable` | mongoose.c:10364-10374 | the one to four octets of every remaining length in the table of section 2.2.3 of MQTT 3.1.1 |
| `MqttPackets.ConnackIsRead` | mongoose.c:10216-10219 | 20 02, the session octet and the code, in front of anything, are a CONNACK with that code |
| `MqttPackets.ShortConnackIsMalformed` | mongoose.c:10216-10219 | a CONNACK with fewer than two octets is malformed |
| `MqttPackets.AckIsRead` | mongoose.c:10220-10226 | commands 4 to 7 and 9 are read with the identifier in their first two octets |
| `MqttPackets.OtherIsRead` | mongoose.c:10249-10251 | commands 0 and 10 to 15 are read whatever is in them |
| `MqttPackets.PublishIsRead` | mongoose.c:10227-10238 | a topic behind its length, an identifier exactly if the quality of service is not zero, and the payload are read from a packet of command 3 |
| `MqttPackets.PublishIsWritten` | mongoose.c:10227-10238 | and nothing else is read as a publication |
| `MqttPackets.SubscribeIsRead` | mongoose.c:10239-10248 | a packet of command 8 is read with its identifier and the topics as they are |
| `MqttPackets.ShortSubscribeIsMalformed` | mongoose.c:10239-10240 | with fewer than two octets it is malformed |
| `MqttPackets.TopicIsRead` | mongoose.c:10492-10505 | a topic and its quality of service are given, and the position behind them |
| `MqttPackets.ConnectIsReadExactly` | mongoose.c:10178-10216 | the body of a CONNECT is accepted exactly if it is protocol, version, flags, keep-alive, client identifier, will topic, will message, user name and password in this order, the last four exactly if bits 2, 7 and 6 of the flags announce them |
| `MqttPackets.ConnectExample` | mongoose.c:10178-10216 | one CONNECT packet with all its strings |
| `MqttPackets.PublishIsSent` | mongoose.c:10453-10470 | the octets of a publication, behind what was to be sent before |
| `MqttPackets.SubscribeIsSent` | mongoose.c:10472-10490 | the octets of a subscription: 0x82, the remaining length, the identifier and the topics |
| `MqttPackets.TopicIsSent` | mongoose.c:10479-10487 | each topic behind its length, with its quality of service behind it |
| `MqttPackets.AckIsSent` | mongoose.c:10537-10570 | acknowledgements begin with 0x40, 0x50, 0x62, 0x70 and 0x92 and hold the identifier |
| `MqttPackets.FlagsAreSent` | mongoose.c:10388-10405 | the flags of a handshake are those of the strings that are given |
| `MqttPackets.HandshakeExamples` | mongoose.c:10383-10446 | the handshakes without and with all strings |
| `MqttStream.DrainResumes` | mongoose.c:10271-10302 | draining the buffer and again after more has arrived is draining all at once, in a stream where no acknowledgement takes its identifier from behind itself |
| `MqttStream.FeedDrains` | mongoose.c:10271-10302 | the reads of such a stream, one by one, give the messages and the rest of the whole of it |
| `MqttStream.ReadsDoNotMatterExactly` | mongoose.c:10271-10302 | every cut of a stream into reads gives the same messages and rest exactly if the stream is such a one |
| `MqttStream.ShortAckDependsOnReads` | mongoose.c:10225-10225 | one stream in two reads and in one gives two different identifiers |
| `MqttStream.DrainStreamExactly` | mongoose.c:10271-10302 | a stream of packets gives their messages in order exactly if its acknowledgements find their identifiers in themselves, or not even behind themselves |
| `MqttStream.StreamSettledExactly` | mongoose.c:10271-10302 | these are the streams whose messages do not depend on the cut |
| `MqttStream.CutStreamExactly` | mongoose.c:10271-10302 | under the same condition a stream cut inside a packet gives the messages before it and leaves exactly what there is of that packet |
| `MqttConnection.MqttConnection.constructor` | mongoose.c:10347-10351 | empty buffers, nothing handed on |
| `MqttConnection.MqttConnection.DecodeLength` | mongoose.c:10155-10168 | the loop with its growing shift computes the remaining length |
| `MqttConnection.MqttConnection.ParseMqtt` | mongoose.c:10146-10257 | the packet at the front, incomplete, or malformed, decided by the length loop, the switch and its pointer tests |
| `MqttConnection.MqttConnection.ParseCase` | mongoose.c:10176-10252 | the switch on the octets of the packet, with an identifier read past its end for acknowledgements |
| `MqttConnection.MqttConnection.ScanTo` | mongoose.c:10140-10144 | a string is taken exactly if it ends inside the packet, although its length may be read behind it |
| `MqttConnection.MqttConnection.ParseConnectAt` | mongoose.c:10178-10186 | the pointer tests up to the client identifier accept exactly the grammar of the packet |
| `MqttConnection.MqttConnection.ParseOptionsAt` | mongoose.c:10187-10203 | a string that leaves the packet is found out by the next test or by the last one |
| `MqttConnection.MqttConnection.ParsePublishAt` | mongoose.c:10227-10238 | topic, identifier and payload, or malformed |
| `MqttConnection.MqttConnection.NextSubscribeTopic` | mongoose.c:10492-10505 | the topic at the position and where the next one starts, or -1 |
| `MqttConnection.MqttConnection.Receive` | mongoose.c:10271-10302 | the messages handed on and the octets left are those of all reads so far, one by one; the connection closes exactly on a malformed packet or when an unfinished one reaches the limit |
| `MqttConnection.MqttConnection.MessagesOfStream` | mongoose.c:10271-10302 | unless an acknowledgement took its identifier from behind itself, they are those of the whole stream |
| `MqttConnection.MqttConnection.PrependHeader` | mongoose.c:10353-10376 | header and length octets go in front of the last len octets of the send buffer |
| `MqttConnection.MqttConnection.SendPublish` | mongoose.c:10453-10470 | the send buffer grows by the published packet |
| `MqttConnection.MqttConnection.SendSubscribe` | mongoose.c:10472-10490 | the send buffer grows by the subscription packet |
| `MqttConnection.MqttConnection.SendAcknowledge` | mongoose.c:10537-10570 | the send buffer grows by the acknowledgement |
| `MqttConnection.MqttConnection.SendString` | mongoose.c:10411-10415 | length and string as far as 16 bits say, and the remaining length counted on in 16 bits |
| `MqttConnection.MqttConnection.SendFixed` | mongoose.c:10388-10409 | the fixed part, with the flags of the strings that are given and a keep-alive of 60 for none |
| `MqttConnection.MqttConnection.SendHandshake` | mongoose.c:10383-10446 | sending piece by piece with a 16-bit remaining length gives the handshake behind what is already to be sent |
| `Qlog.SplitUniquely` | qlog.c:72-85 | the records and the tail are the only way to see a stream as records with their only '$' at the end and a rest without one |
| `Qlog.RecordsResume` | qlog.c:72-85 | cutting records off and again after more has arrived is cutting them all at once |
| `Qlog.LineOfRecord` | qlog.c:75-82 | a record ends with the only '$' in it, octet 36, and is written with octet 10 behind it, in the order received |
| `Qlog.Example` | qlog.c:72-85 | two records and the beginning of a third |
| `Qlog.Logger.constructor` | qlog.c:72-74 | nothing received, nothing written |
| `Qlog.Logger.CutRecord` | qlog.c:75-82 | one record and a newline go to the file and the record leaves the buffer |
| `Qlog.Logger.Receive` | qlog.c:72-85 | the loop that restarts its index ends; the file holds every complete record with a newline and the buffer the rest, for every cut into reads |
| `Qlog.Logger.Close` | qlog.c:87-93 | the rest is flushed: without the inserted newlines the file is all that was received |
| `Tracker.PollKeeps` | qtripp.c:257-322 | processing a record keeps: records done and buffer are what was received, records have their only '$' at the end, and the IMEI is the first one reported |
| `Tracker.StepKeeps` | qtripp.c:224-376 | every event keeps this for all connections |
| `Tracker.ConsistentRecords` | qtripp.c:257-358 | the records done and those still in the buffer are all records of what was received |
| `Tracker.PollsDrain` | qtripp.c:257-322 | enough polls process the records that the loop of qlog.c would write and leave the same rest |
| `Tracker.WillExactly` | qtripp.c:360-376 | for every IMEI but the test one a pseudo last will is published exactly in the step in which its number of connections drops to zero |
| `Tracker.NoWillForTests` | qtripp.c:369-369 | none is published for the test IMEI |
| `Tracker.RunHoldsOpen` | qtripp.c:93-125 | after every run conns_by_sock holds exactly the sockets accepted and not closed |
| `Tracker.WillsAreDrops` | qtripp.c:360-376 | over every run an IMEI has as many pseudo last wills as times its last connection went, the test IMEI none |
| `Tracker.WillsGrow` | qtripp.c:360-376 | the last wills published after some events come first, in the same order, among those of a longer run |
| `Tracker.ImeiStays` | qtripp.c:306-313 | an IMEI once recorded stays until the connection closes |
| `Tracker.ConnData.TakeRecord` | qtripp.c:257-322 | the first record is processed and removed and may set the IMEI; at most one record a poll |
| `Tracker.Connections.constructor` | qtripp.c:75-76 | no connections |
| `Tracker.Connections.AcceptConn` | qtripp.c:324-338 | the table gets a fresh entry unless the socket is known |
| `Tracker.Connections.ReceiveData` | qtripp.c:340-358 | the octets go behind the connection's buffer, no other connection changes |
| `Tracker.Connections.PollSocket` | qtripp.c:224-322 | the connection of the socket advances by one record, no other changes |
| `Tracker.Connections.CountConns` | qtripp.c:153-166 | the number of connections of the IMEI |
| `Tracker.Connections.CloseConn` | qtripp.c:360-376 | the entry goes, and the pseudo last will is published as the count before demands |
| `DnsName.JoinLabels` | mongoose.c:10881-10899 | the labels of a name, joined by dots, are the name |
| `DnsName.LabelsReadBack` | mongoose.c:11073-11127 | labels of 1 to 63 octets are read back as far as there is room |
| `DnsName.NameReadBack` | mongoose.c:11073-11127 | a name with such labels, anywhere in a packet, comes back cut to the room there is |
| `DnsName.NameRoundTripExactly` | mongoose.c:10876-11127 | of the names the encoder accepts, exactly the empty one and those that fit and have labels of 1 to 63 octets come back; the encoder takes labels up to 127 |
| `DnsName.LongLabelIsLost` | mongoose.c:11104-11106 | the name of one label with 64 octets is encoded and read back as nothing |
| `DnsName.EmptyLabelEndsName` | mongoose.c:10885-10897 | a..b is encoded with an empty label and read back as a |
| `DnsPointers.NameIsRead` | mongoose.c:11073-11127 | what a packet spells in labels of 1 to 63 octets along at most fifteen pointers, each of two octets 0xC000 + offset, comes out joined by dots and cut to the room there is |
| `DnsPointers.PointerTooMany` | mongoose.c:11092-11103 | with more pointers the labels ahead of the sixteenth are the answer if they fill the room, and otherwise it is empty |
| `DnsPointers.ChainIsRefused` | mongoose.c:11092-11103 | more pointers in a row than are left to follow, a pointer to itself included, give the empty name |
| `DnsPointers.ReadIsSpelled` | mongoose.c:11073-11127 | an answer that is neither empty nor fills the room was spelled by the packet, along at most fifteen pointers |
| `DnsPointers.PointerExample` | mongoose.c:11087-11097 | the name a behind twelve octets, and the pointer C0 0C to it |
| `DnsName.EncodeName` | mongoose.c:10876-10903 | the labels and the end are appended and counted, or -1 exactly if a label is longer than 127 |
| `DnsName.FollowPointer` | mongoose.c:11092-11103 | a pointer is followed only inside the packet and at most fifteen times |
| `DnsName.TakeLabel` | mongoose.c:11104-11120 | a label is copied as far as there is room, and the loop ends on a bad or cut-off one |
| `DnsName.UncompressName` | mongoose.c:11073-11127 | ends on every packet, reads inside it, writes at most dst_len octets, and leaves the name that following labels and pointers gives |
| `Base64.CodeReadsBack` | mongoose.c:225-236 | the table of from_b64 undoes the 64 code characters |
| `Base64.TableIs` | mongoose.c:345-382 | the code characters are those of table 1 of RFC 4648, read by their low seven bits; the padding character and all others are told apart |
| `Base64.QuadIsNumber` | mongoose.c:262-272 | the four values of three octets are the digits to base 64 of the number they write |
| `Base64.EncodeConcat` | mongoose.c:262-272 | encoding splits at multiples of three octets |
| `Base64.EncodeLength` | mongoose.c:320-322 | four characters for every three octets begun |
| `Base64.DecodeOfEncode` | mongoose.c:384-403 | decoding gives the octets back and takes every character, for every length modulo three |
| `Base64.FourCharacters` | mongoose.c:384-403 | for every input, where decoding stops: in front of a character outside the alphabet, or behind padding, with no, one or two octets of these four characters by the place of the padding |
| `Base64.OctetsAreNumber` | mongoose.c:394-398 | the octets of four characters are those of the number that their values write to base 64, cut where the padding begins |
| `Base64.Examples` | mongoose.c:285-403 | f, fo and foo, encoded and decoded |
| `Base64.Encoder.constructor` | mongoose.c:255-260 | nothing emitted, nothing held |
| `Base64.Encoder.EmitChunk` | mongoose.c:238-253 | as many characters as the chunk has octets, and one more |
| `Base64.Encoder.Update` | mongoose.c:262-272 | whole groups are out and the rest is in the chunk, for every way of cutting the input |
| `Base64.Encoder.Finish` | mongoose.c:274-284 | streaming gives exactly the characters of the one-shot encoding of the whole input |
| `Base64.EncodeAll` | mongoose.c:285-322 | the one-shot loop gives the encoding of section 4 of RFC 4648 and a terminator |
| `Base64.DecodeAll` | mongoose.c:384-403 | the octets and the characters taken, also for input that is not Base64 |

## Left out

- Sha1.Update: requires that buffered octets and length stay below 2^32; GuardExactly shows that the source's guard is right exactly then.
- JsonTree.Forest: strings are values; that none is leaked or freed too often is proved of their number, not of each one's address.
- JsonStringify: numbers are lexemes; strtod and the printing of doubles are outside the model.
- Mqtt.LengthReadsBack: adds the length octets in unbounded arithmetic, where the source shifts an int and a fifth octet overflows it; the packet theorems are for remaining lengths below 2^28, which the standard's four octets can say.
- MqttConnection.ParseMqtt: the identifier of an acknowledgement that ends with the buffer is None; the source reads memory behind the received octets.
- MqttConnection.Receive: the source clears its message once per read event, so a handler of a packet without a case in parse_mqtt still sees the fields of the packet before; the model's OtherBody has none, and no body holds fields of an earlier packet.
- Connection.Close: the source takes a payload length of 2^32-1 modulo 2^32 for "use strlen"; the model passes the data.
- Message.Parse: on a fault the model says which fault, not which fields had been filled in by then.
- ChunkedBody.Receive: stops at the empty chunk; what the HTTP handler does with the finished message is not modelled.
- Sizes that would wrap in 64 bits (chunk lengths with more than sixteen digits, buffers beyond memory) and failing allocations.
- The round functions of SHA-1 and MD5: they are a parameter of the model; erasing the context afterwards is not modelled.
- The hash table conns_by_imei: deletion from it is compiled out in the source.
- process and handle_report: a function from a record to an optional IMEI; log files, statistics, MQTT publishing of records and the inactivity timer are outside.
- The ping on idle WebSocket and MQTT connections and its keep-alive clock; MQTT unsubscribe, CONNACK, ping and disconnect packets on the sending side; topic matching and the MQTT broker.
- Sockets, polling, TLS, other platforms, CGI, SSI, WebDAV, file serving, digest authentication, multipart streaming, URI splitting, configuration, and the fields of a report.
