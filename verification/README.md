# SprinklerD and its web library, modelled in Dafny

SprinklerD is a sprinkler controller. It keeps a watering schedule, a rain delay and a file of settings, and talks to
the world through one C library, `mongoose.c`, which carries WebSocket, HTTP, MQTT, CoAP and DNS. This project models the
byte-level parts of that library and the two pieces of SprinklerD's own state that have laws of their own, and proves
those laws for all inputs, all runs and all ways of cutting a stream.

Each part comes in two halves. A specification half (`...Spec`, or the first half of a file) holds what the code computes,
as functions on sequences, beside an independent account of what it should compute: the RFC's receiver of frames, the
algorithm of RFC 3986, the padded message of FIPS 180-4, the levels of an MQTT filter, the Gregorian calendar counted day
by day. Lemmas connect the two. A second half holds the code in its own form, on the growable buffer `Mbuf`, on arrays, on
a linked list or on the fields of a class, with `memmove`s and loops, each method proved to compute its function.

| files | what they are about |
|---|---|
| `Bytes`, `Chars`, `Mbuf`, `Streams` | octets and machine integers, characters, the growable buffer, cutting a stream of packets anywhere |
| `WebSocketSpec`, `WebSocketStream`, `WebSocketRuns`, `WebSocketSend`, `WebSocketRfc`, `WebSocketConn` | RFC 6455 framing, both directions |
| `CoapSpec`, `CoapCodec`, `CoapGrammar`, `CoapMessage` | CoAP options and packets (RFC 7252) |
| `MqttSpec`, `MqttRoundTrip`, `MqttFields`, `MqttRuns`, `MqttSent`, `MqttConn`, `TopicFilter` | MQTT 3.1.1 packets, the receive loop, topic filters |
| `DnsSpec`, `DnsNames` | DNS names with compression (RFC 1035) |
| `ChunkedSpec`, `ChunkedConn`, `UrlSpec`, `Urls`, `UriPath`, `Glob`, `GlobLaws`, `Base64`, `CalendarTime` | what HTTP needs |
| `DigestSpec`, `Digests` | SHA-1 and MD5 around their block transforms |
| `CronSpec`, `CronFile`, `Cron` | the schedule, printed for cron and read back |
| `Float32`, `CacheFile`, `RainDelaySpec`, `RainDelay` | the rain delay, and the settings file read through 32-bit floats |

`dafny verify dfyconfig.toml` checks the whole project.

Sizes are those of a 64-bit platform: `size_t` and `long` have 64 bits, `int` has 32. Where the code puts a length into
fewer bits the model does so too.

## What the code does not keep

Where a law does not hold of the code the condition under which it does is proved, and a concrete input is given where the
condition alone would not show it.

- `mg_send` takes an `int`: WebSocket frames of 2^31 octets and more do not arrive (`SentArrives`, `VectorArrives`).
- A WebSocket payload of 65535 octets is sent with eight octets of length, where section 5.2 of RFC 6455 wants the least
  number that will do (`ShortestIff`).
- CoAP option numbers and lengths are read in 16 bits but written in more (`ComposeParse`).
- MQTT strings of 2^16 octets and more are cut without an error (`PublishArrives`, `ConnectArrives`, `SubscribeArrives`).
- SUBACK is sent with flags 2, where table 2.2 of MQTT 3.1.1 wants 0 (`ReservedFlagsIff`).
- A DNS name is followed over 15 pointers, where the comment at mongoose.c:11684 says 16 (`FifteenPointers`).
- DNS labels of 64 to 127 octets are written, and then no name (`EncodeUncompress`).
- A chunk of 2^24 octets or more is sent but never read (`ChunkArrives`).
- MD5 counts the length of each piece in 32 bits (`Md5PaddingExact`).
- SHA-1 adds the place in the block and the length of a piece in 32 bits (`StaysInBlockIff`, `LongPieceLeavesBlock`), and
  `mg_vcmp` returns the difference of two lengths as an int, so that a path component or a filter level longer than 2^32
  octets may pass for a dot, a `+` or a `#` (`UriPath.OneComponentIff`, `TopicFilter.OneLevelIff`).
- The glob matcher does not match a star at the end of the string, where mongoose.h:2352 says that a star matches zero or
  more characters (`StarAtTheEndIsMissed`; the alternatives that lose nothing by it are those of `StarsAreMatchedIff`, the
  strings for which something is found those of `FoundIffFindable`). It ignores a `$` at the end of an alternative behind
  a star (`StarDollarIsStar`, and `AsItStandsIff` for when that shows). A question mark also takes a slash, where
  mongoose.h:2354 says that it does not (`AnyTakesSlash`; the alternatives for which that never shows are those of
  `AsDocumentedIff`).
- The search for a variable takes some names that hold a `&` for part of a query (`NameIsSafeIff`, `NameAcrossPairs`).
- The topic matcher drops empty levels at the end of a filter or a topic, and an empty level before a final `#`. The
  filters it gets right are exactly those of `FilterIsRightIff`, the topics those of `TopicIsRightIff`; inputs are in
  `TrailingSlashIsDropped`, `TrailingSlashesAreDropped`, `EmptyLevelBeforeHash` and `PlusMissesLastEmptyLevel`.
- A negative time asked for in a request leaves the rain delay on for good (`ResetArmsIff`, `NegativeTimeSticks`), and an
  end in the last minute before 2^31 seconds may be read back as a negative one (`StopArmsIff`).
- A setting that prints as -1 is taken for the mark before the run times (`RestoredIffNoMark`).
- A schedule comes back without run times of three digits and without zones that start after midnight
  (`DayComesBackIff`).
- `cs_timegm` cuts off its leap-year divisions towards zero, which shows before March 1968 (`DaysAreRightIff`), and
  `mg_parse_date_string` is a day late in January and February of leap years (`ParseDateAgreesIff`).
- When a chunked body ends, the message's length also counts the octets behind it, where the comment at
  mongoose.c:6314 speaks of body and headers only: it is right when nothing is left unread, and then only (`Transfer.Handle`).

## Model

| member | source | states |
|---|---|---|
| `Buffers.Mbuf.Resize` | mongoose.c:1433-1445 | contents survive a resize; the block changes only to a size that holds them |
| `Buffers.Mbuf.Trim` | mongoose.c:1448-1450 | contents survive; the block shrinks to them |
| `Buffers.Mbuf.Insert` | mongoose.c:1453-1494 | data lands at the offset, what was behind it follows; the block stays if it is large enough and grows to half as much again, at most 8192 octets more, or to the exact size, whichever memory there is for; nothing changes when there is none |
| `Buffers.Mbuf.Append` | mongoose.c:1497-1499 | data lands behind the contents and its length is returned; when memory runs out nothing changes and the result is 0 |
| `Buffers.Mbuf.Remove` | mongoose.c:1518-1523 | the first n octets go; a request for more than there are changes nothing |
| `Buffers.Send` | mongoose.c:2774-2777 | appends what an int makes of the length, which is all of the data below 2^31 octets, if memory suffices, and otherwise nothing |
| `Bytes.XorTwice` | mongoose.c:9930-9935 | masking an octet twice with the same key octet gives it back |
| `Bytes.XorIsExclusive` | mongoose.c:9930-9935 | bit k of the octet masked with a key octet is set if and only if bit k is set in exactly one of the two |
| `WebSocketStream.HeaderStable` | mongoose.c:9897-9911 | a header once read is not read differently when more octets arrive |
| `WebSocketStream.MaskTwice` | mongoose.c:10070-10076 | masking and unmasking with the same key restores any payload |
| `WebSocketRfc.MaskBits` | mongoose.c:10070-10076 | octet i is masked with octet i modulo 4 of the key, bit by bit (section 5.3 of RFC 6455) |
| `WebSocketRfc.HeadSays` | mongoose.c:10036-10037 | the first octet sent has FIN unless DONT_FIN is asked for, no reserved bits, and the opcode |
| `WebSocketRfc.HeaderLength` | mongoose.c:10038-10068 | how long a header is, in each of the three length forms, with and without a key |
| `WebSocketRfc.ShortestIff` | mongoose.c:10038-10056 | the length is sent in the shortest form that holds it, as section 5.2 wants, if and only if it is not 65535 |
| `WebSocketRfc.RefusedIff` | mongoose.c:9875-9895 | a control frame in fragments and, in the middle of a message, a whole frame that is no control frame are answered with a close, change nothing and deliver nothing; no other frame is refused for its first octet |
| `WebSocketRfc.OverflowIff` | mongoose.c:9913-9935 | a frame whose length does not fit 64 bits is answered with a close; one that has not all come waits; any other is taken |
| `WebSocketRfc.CloseIsEchoed` | mongoose.c:9834-9844 | a close is answered with its own payload |
| `WebSocketRfc.MessageArrives` | mongoose.c:10078-10139 | a whole message of any opcode but 0 is delivered once with its opcode and payload, however it is cut; a ping is answered with a pong, a close with a close, of the same payload, and nothing else is answered |
| `WebSocketRfc.HelloIsMasked` | mongoose.c:10070-10076 | "Hello" is masked as in section 5.7 of RFC 6455 |
| `WebSocketRfc.Examples` | mongoose.c:10032-10090 | the octets of all the examples of section 5.7 |
| `WebSocketRfc.ExamplesArrive` | mongoose.c:9846-9997 | and what is delivered and answered when they come one after another, cut anywhere |
| `WebSocketStream.NextOutcome` | mongoose.c:9913-9935 | exactly the complete frames are handled; an incomplete one leaves buffer and events alone, and one whose length overflows 64 bits is refused |
| `WebSocketStream.DeliverWhole` | mongoose.c:9846-9997 | on a frame that sections 5.2 to 5.4 of RFC 6455 allow, followed by anything, the code does what a receiver of frames does: same events, same replies, same pending message, rest untouched |
| `WebSocketStream.DeliverPrefix` | mongoose.c:9846-9997 | a frame cut short anywhere is neither taken for a frame nor for an error |
| `WebSocketRuns.Drain` | mongoose.c:10131-10139 | the deliver loop takes all whole frames and stops at the unfinished one |
| `WebSocketRuns.BufferInvariant` | mongoose.c:9846-9997 | after any run of receive chunks of a conforming stream, buffer = opcode octet and payload of the message in progress, then the octets of one incomplete frame |
| `WebSocketRuns.CuttingIsInvisible` | mongoose.c:10131-10139 | for every conforming stream and every way of cutting it, exactly its messages and control frames are delivered, in order, and nothing is left over |
| `WebSocketSend.FrameArrives` | mongoose.c:10032-10068 | all three length forms, masked or not, with or without FIN: the receiver gives back opcode, FIN bit and payload and what follows |
| `WebSocketSend.SentArrives` | mongoose.c:10078-10090 | a sent frame reaches the receiver if and only if its payload is shorter than 2^31 octets |
| `WebSocketSend.VectorArrives` | mongoose.c:10092-10112 | a frame sent from several pieces arrives as their concatenation if and only if they total less than 2^31 octets |
| `WebSocketSend.ConversationArrives` | mongoose.c:10078-10090 | what conforming send calls put on the wire is received, however the network cuts it |
| `WebSocketSend.PiecesAreOne` | mongoose.c:10078-10090 | the frames of such a message are a stream that section 5.4 of RFC 6455 allows, and one message to its receiver |
| `WebSocketSend.PiecesArriveAsOne` | mongoose.c:10078-10090 | a message sent with DONT_FIN in pieces, each masked with a key of its own, is delivered once, as the concatenation, however the network cuts what was sent, and nothing is left in the buffer |
| `WebSocketConn.SendHeader` | mongoose.c:10032-10068 | appends the header for the payload and returns where masking begins |
| `WebSocketConn.MaskFrame` | mongoose.c:10070-10076 | masks what was queued from there on, where it lies, and leaves what was queued before alone |
| `WebSocketConn.SendFrame` | mongoose.c:10078-10090 | queues exactly the octets of the frame behind what was queued |
| `WebSocketConn.SendFrameVector` | mongoose.c:10092-10112 | the same for a payload in pieces, with the lengths added in an int |
| `WebSocketConn.Conn.Deliver` | mongoose.c:9846-9997 | one call in the connection buffers, unmasking and compacting in place, is one step of the receiver the lemmas are about |
| `WebSocketConn.Conn.Receive` | mongoose.c:10131-10156 | appending a chunk and delivering until nothing more can be delivered is the run the lemmas are about; the replies are queued in order, on a client's connection each with a key drawn anew, on a server's without; it ends because the buffer shrinks |
| `CoapSpec.BuiltIsStableSort` | mongoose.c:12132-12178 | options added one by one are the stable ascending sort of the additions |
| `CoapSpec.StableSortUnique` | mongoose.c:12132-12178 | sorted and stable leaves one list only |
| `CoapCodec.SizeIsLength` | mongoose.c:12501-12548 | the size computed beforehand is the number of octets written |
| `CoapCodec.ComposeParse` | mongoose.c:12400-12425 | a composed packet is parsed back field by field if and only if its option numbers and lengths fit in 16 bits |
| `CoapCodec.BuiltArrives` | mongoose.c:12132-12178 | a packet with legal header fields whose options were added one by one, all within 16 bits, is never refused and is parsed back as it is |
| `CoapCodec.ParseCompose` | mongoose.c:12550-12619 | a canonical packet (section 3 of RFC 7252) parsed and composed again is the same octets |
| `CoapGrammar.HeaderDecides` | mongoose.c:12185-12262 | which octets are no header or no whole token, and the flags and fields given for each such case |
| `CoapGrammar.OptionsDecide` | mongoose.c:12304-12398 | what any octets behind the token are read as: options with the sums of their deltas for numbers, sorted, up to the payload marker or the end; a reserved 15 is a format error and an option cut short too little data |
| `CoapGrammar.BodyDecides` | mongoose.c:12400-12425 | the flags and fields of any packet with a whole header and token, payload marker without payload included |
| `CoapGrammar.RefusalDecides` | mongoose.c:12501-12548 | the mask of the first field that cannot be written |
| `CoapGrammar.OptionsErrorIff` | mongoose.c:12501-12548 | a list of options is refused if and only if one is out of order, or its delta or length is too large to write |
| `CoapGrammar.Figure16` | mongoose.c:12550-12619 | the packet of figure 16 of RFC 7252, composed and parsed |
| `CoapMessage.Message.AddOption` | mongoose.c:12132-12178 | the linked list becomes the sorted insertion, nodes stay distinct and the tail pointer stays the last node |
| `CoapMessage.Message.CalculateSize` | mongoose.c:12501-12548 | the packet size, or the mask of the field that cannot be encoded |
| `CoapMessage.Message.Compose` | mongoose.c:12550-12619 | appends exactly the packet, or nothing and the mask of the field that cannot be encoded, or nothing and an error when memory runs out |
| `CoapMessage.Message.Parse` | mongoose.c:12400-12425 | flags, fields and the list of options are those of the packet, error cases included |
| `CoapMessage.ReadExt` | mongoose.c:12270-12298 | the extended delta or length at a place of the buffer, in 16 bits, or too little data |
| `CoapMessage.PutOption` | mongoose.c:12588-12610 | the octets of one option, written in place |
| `DigestSpec.AbsorbSplit` | mongoose.c:1319-1337 | absorbing in two goes with the remainder kept in between is absorbing at once |
| `DigestSpec.AddLengthCounts` | mongoose.c:1323-1325 | the two-word count is the number of bits modulo 2^64, carry included |
| `DigestSpec.BlockPosition` | mongoose.c:1323-1326 | the place in the block can be read off the low word |
| `DigestSpec.ZerosForIsLeast` | mongoose.c:1350-1353 | the padding has the least number of zero octets |
| `DigestSpec.PaddedFillsBlocks` | mongoose.c:1339-1361 | the padded message is whole blocks |
| `DigestSpec.WordAt` | mongoose.c:1355-1358 | octets 4*i to 4*i+4 of a digest are word i, high octet first for SHA-1 and low octet first for MD5 |
| `DigestSpec.InitialWords` | mongoose.c:1308-1317 | the first words are those of section 3.3 of RFC 1321 in its octet order, and one more for SHA-1 |
| `Digests.Sha1Ctx.Update` | mongoose.c:1319-1337 | the copies stay inside the block if and only if the place in the block and the length add up in 32 bits, and then state, buffer and count are those of all data fed so far |
| `Digests.StaysInBlockIff` | mongoose.c:1323-1336 | the copy behind j octets ends inside the 64 octets of the block if and only if j and the length add up below 2^32 |
| `Digests.LongPieceLeavesBlock` | mongoose.c:1323-1336 | with one octet in the block and a piece of 2^32 - 1 it ends 2^32 octets on |
| `Digests.Sha1Ctx.Final` | mongoose.c:1339-1361 | the digest is the transform over the padded message of section 5.1.1 of FIPS 180-4 |
| `Digests.Sha1OfPieces` | mongoose.c:1319-1361 | any split into pieces whose length is a uint32_t gives the digest of the whole, or the result says that a sum wrapped around |
| `Digests.ShortPiecesArePlaceable` | mongoose.c:1319-1337 | pieces of up to 2^32 - 64 octets always add up so |
| `Digests.Md5Ctx.Update` | mongoose.c:1076-1109 | the same for MD5, whose count takes each length in 32 bits |
| `Digests.Md5Ctx.Final` | mongoose.c:1111-1139 | the digest over the padded message, with the length that was counted |
| `Digests.Md5OfPieces` | mongoose.c:1076-1139 | any split into pieces gives the digest of the whole when each is shorter than 2^32 octets |
| `Digests.Md5PaddingExact` | mongoose.c:1076-1085 | the padding is that of sections 3.1 and 3.2 of RFC 1321 if and only if the octets the count leaves out are a multiple of 2^61 |
| `UriPath.RefinesRfc3986` | mongoose.c:5545-5577 | on every path that begins with a slash the code computes remove_dot_segments of section 5.2.4 of RFC 3986, if it misreads no component; in no path of at most 2^32 octets does it |
| `UriPath.OneComponentIff` | mongoose.c:5545-5577 | a path of one component is normalised as the RFC says if and only if `mg_vcmp`, which returns the difference of two lengths as an int, does not take the component for dots |
| `UriPath.NormalizedClean` | mongoose.c:5545-5577 | the result begins with a slash, has no dot component and is no longer than the path |
| `UriPath.NoDotsBetween` | mongoose.c:5545-5577 | what that means for the text between two slashes |
| `UriPath.Idempotent` | mongoose.c:5545-5577 | normalising twice is normalising once |
| `UriPath.ScanComponent` | mongoose.c:5401-5413 | where a component ends and where the next begins |
| `UriPath.Normalize` | mongoose.c:5545-5577 | the same octets whether it writes into another block or over its input; refuses a path without a leading slash and then writes nothing |
| `MqttRoundTrip.PublishArrives` | mongoose.c:11020-11043 | a PUBLISH packet at any QoS gives back topic, id and payload if and only if the topic is shorter than 2^16 |
| `MqttRoundTrip.ConnectArrives` | mongoose.c:10943-11018 | a CONNECT packet with any will, user name and password gives back every field if and only if its strings are shorter than 2^16 |
| `MqttRoundTrip.SubscribeArrives` | mongoose.c:11045-11084 | a SUBSCRIBE packet gives back its id and, asked one by one, its topics if and only if they are shorter than 2^16 |
| `MqttRoundTrip.PacketRead` | mongoose.c:10673-10700 | a packet is read as its body, whatever follows it |
| `MqttFields.FirstOctetSays` | mongoose.c:10918-10936 | the first octet sent gives back the command and all four flags, RETAIN and DUP included |
| `MqttFields.PublishFlags` | mongoose.c:11020-11043 | so do those asked for in a PUBLISH |
| `MqttFields.LengthOctets` | mongoose.c:10918-10936 | octet i of the length holds seven bits of it and says whether more follow (section 2.2.3 of MQTT 3.1.1) |
| `MqttFields.LengthSizes` | mongoose.c:10918-10936 | the length has at most k octets if and only if it is below 128^k |
| `MqttFields.LengthDecides` | mongoose.c:10680-10691 | what any octets are read as for a length: too long, unfinished, or the sum of their sevens of bits in 32 bits |
| `MqttFields.IncompleteIff` | mongoose.c:10673-10696 | exactly which buffers hold no packet yet: less than two octets, a length or contents that have not all come |
| `MqttFields.ConnackRead` | mongoose.c:10741-10744 | a CONNACK with any session octet, flags and octets behind is read as its return code, the second octet |
| `MqttFields.ConnackOctets` | mongoose.c:10741-10744 | the four octets 0x20, 2, session, code |
| `MqttFields.AckRead` | mongoose.c:10745-10753 | an acknowledgement or a SUBACK is read as the identifier in its first two octets, with any flags and any return codes behind |
| `MqttFields.AckOctets` | mongoose.c:10745-10753 | its four octets |
| `MqttFields.TooShort` | mongoose.c:10673-10784 | answers and subscriptions of less than two octets are malformed |
| `MqttFields.OthersRead` | mongoose.c:10673-10784 | every other command is handed on, whatever its body |
| `MqttFields.ConnectFields` | mongoose.c:10943-11018 | each field read from a CONNECT is the option given: will only if topic and message are given, 60 seconds when no keep-alive is asked for, the flag of each string that is there |
| `MqttFields.FlagsSent` | mongoose.c:10943-11018 | each bit of the flags of a CONNECT |
| `MqttFields.ConnectIff` | mongoose.c:10702-10727 | a CONNECT is accepted with certain fields if and only if it is the octets of these fields, as section 3.1 writes them |
| `MqttFields.PublishIff` | mongoose.c:10754-10765 | and a PUBLISH, as section 3.3 does |
| `MqttFields.Octets` | mongoose.c:10943-11069 | a CONNECT, a PUBLISH and a SUBSCRIBE octet by octet |
| `MqttFields.AnswerOctets` | mongoose.c:11111-11182 | and all the answers |
| `MqttRuns.WholePacket` | mongoose.c:10673-10784 | what follows a packet does not change how it is read |
| `MqttRuns.PrefixIncomplete` | mongoose.c:10680-10696 | a strict prefix of a packet is incomplete, never malformed |
| `MqttRuns.BufferInvariant` | mongoose.c:10798-10832 | after any chunks the handler has had the whole packets and the buffer holds exactly the unfinished tail |
| `MqttRuns.CuttingIsInvisible` | mongoose.c:10798-10832 | every stream of packets, cut anywhere, reaches the handler packet by packet |
| `MqttSent.SentIsMeant` | mongoose.c:10943-11182 | what each of the senders (CONNECT, PUBLISH, SUBSCRIBE, CONNACK, the acknowledgements, SUBACK and the commands without a body) queues is a well-formed packet that reads as it was meant |
| `MqttSent.AnswersAreWellFormed` | mongoose.c:10741-10753 | CONNACK and acknowledgements from any other broker are packets to which `CuttingIsInvisible` applies |
| `MqttSent.ReservedFlagsIff` | mongoose.c:11111-11182 | of all packets but PUBLISH, those sent with the flags that table 2.2 of MQTT 3.1.1 reserves are all but SUBACK |
| `MqttSent.ConversationArrives` | mongoose.c:10798-10832 | what one side queues with any such calls reaches the handler at the other side, packet by packet, however it is cut |
| `MqttConn.SendHeader` | mongoose.c:10918-10936 | the fixed header, with the length in the form of section 2.2.3 of MQTT 3.1.1 |
| `MqttConn.SendPublish` | mongoose.c:11020-11043 | queues exactly the PUBLISH packet |
| `MqttConn.SendSubscribe` | mongoose.c:11045-11069 | queues exactly the SUBSCRIBE packet |
| `MqttConn.SendHandshake` | mongoose.c:10943-11018 | queues exactly the CONNECT packet |
| `MqttConn.SendConnack` | mongoose.c:11110-11115 | queues exactly the CONNACK packet |
| `MqttConn.SendShortCommand` | mongoose.c:11122-11132 | queues exactly the command and the identifier, with flag 2 for PUBREL |
| `MqttConn.SendSuback` | mongoose.c:11150-11163 | queues exactly the SUBACK packet |
| `MqttConn.ParsePacket` | mongoose.c:10673-10784 | packet, incomplete or malformed, as the specification of parsing says |
| `MqttConn.Conn.Receive` | mongoose.c:10798-10832 | the receive loop hands out and removes every packet in the buffer, and closes on malformed or oversized input |
| `DnsSpec.UncompressesName` | mongoose.c:11661-11715 | a name reached over at most 15 pointers is expanded, cut to the room there is |
| `DnsSpec.NoNameNoText` | mongoose.c:11661-11715 | where no name is, pointer cycles included, nothing comes out unless room runs out first |
| `DnsSpec.SelfPointerIsNoName` | mongoose.c:11661-11715 | a pointer to itself is no name |
| `DnsSpec.EncodesLabels` | mongoose.c:11460-11487 | a dotted name is written as its labels behind their lengths and a zero (section 3.1 of RFC 1035) |
| `DnsSpec.Compressed` | mongoose.c:11661-11715 | labels and a pointer to q, written as the two octets of 0xC000 + q, are the labels and the name at q, one hop more (section 4.1.4 of RFC 1035) |
| `DnsSpec.PointerNames` | mongoose.c:11678-11689 | such a pointer is a name over one hop more if and only if there is that name at q |
| `DnsSpec.PointerIsOffset` | mongoose.c:11679 | its two octets are read as the offset q |
| `DnsSpec.FifteenPointers` | mongoose.c:11684-11687 | a name over exactly 15 pointers is expanded, and where there is none over 15 nothing comes out unless room runs out first |
| `DnsSpec.PointerUncompress` | mongoose.c:11661-11715 | a name encoded in the first 2^14 octets of a packet is read back through a pointer to it behind it |
| `DnsSpec.EncodeUncompress` | mongoose.c:11460-11487 | an encoded name, anywhere in a packet, is read back if and only if there is room for it and its labels have at most 63 octets |
| `DnsSpec.EncodeStops` | mongoose.c:11460-11487 | a label of 128 octets or more ends the encoding, after the labels before it |
| `DnsSpec.LongLabelIsNoName` | mongoose.c:11661-11715 | written in a packet, labels of which one has 64 octets or more are no name over any number of pointers |
| `DnsSpec.LongLabelGivesNothing` | mongoose.c:11690-11692 | and are expanded to nothing, where there was room for the name |
| `DnsNames.AppendName` | mongoose.c:11460-11487 | appends the encoding, or stops at a label that is too long |
| `DnsNames.UncompressName` | mongoose.c:11661-11715 | reads inside the packet only, writes inside dst only, ends on every packet, and leaves the expansion in dst |
| `ChunkedSpec.ChunkArrives` | mongoose.c:6229-6264 | a chunk is read back, whatever follows, if and only if it has less than 2^24 octets |
| `ChunkedSpec.UnfinishedChunk` | mongoose.c:6229-6264 | a chunk cut short is not yet read |
| `ChunkedSpec.ChunkRead` | mongoose.c:6229-6264 | one to six hexadecimal digits in either case, a line end, as many octets as they say, and a line end are a chunk |
| `ChunkedSpec.ChunkWritten` | mongoose.c:6229-6264 | and nothing else is |
| `ChunkedSpec.CollapseAll` | mongoose.c:6277-6290 | whole chunks collapse to their data, and what is unread behind them stays as it is |
| `ChunkedSpec.DeletesOnRequest` | mongoose.c:6292-6321 | after a chunk has come and deletion is asked for the buffer holds no body; otherwise none of it goes |
| `ChunkedSpec.BufferInvariant` | mongoose.c:6266-6321 | over any calls, with any choice of deleting what was delivered: the data of the whole chunks, then the unread octets |
| `ChunkedSpec.CuttingIsInvisible` | mongoose.c:6266-6321 | however the stream is cut and whatever is deleted when, the body is the same and nothing is left over |
| `ChunkedConn.SendChunk` | mongoose.c:7322-7330 | queues exactly the chunk: size in hexadecimal, data, line ends |
| `ChunkedConn.FindChunk` | mongoose.c:6229-6264 | length and data of the chunk in front, or 0 |
| `ChunkedConn.Transfer.Gather` | mongoose.c:6277-6290 | the loop of memmoves: head untouched, body collapsed, tail unchanged |
| `ChunkedConn.Transfer.Handle` | mongoose.c:6292-6321 | the tail is closed up behind the body, the buffer shrinks by the framing, the saved length is the length of the body, and at the end the message length is that of head and body if and only if nothing is left unread |
| `ChunkedConn.Transfer.Receive` | mongoose.c:6478-6490 | one more piece through the buffer is one step of the run |
| `Float32.RoundError` | config.c:87-95 | an integer read through a 32-bit float is off by at most half the distance of floats, and not at all below 2^24 |
| `Float32.RoundTwice` | config.c:87-95 | a number that has been through a float once is not changed again |
| `Float32.RoundIsNearest` | config.c:87-95 | what an integer is rounded to has a mantissa of 24 bits, and no other such number is nearer |
| `Float32.TenthNatError` | config.c:87-95 | a number printed to a tenth is read as a float that is off by at most one part in 2^24 |
| `Float32.WholeTenths` | config.c:87-95 | and exactly when it is whole and below 2^24 |
| `CacheFile.CutsOff` | config.c:95 | a float read for an int is cut off towards zero |
| `CacheFile.ReadBack` | config.c:76-129 | reading what was written restores every setting as a float holds it, if none prints as -1 |
| `CacheFile.TenthsPrintAgain` | config.c:63-64 | a threshold that has been through the file prints the same tenth again, up to 2^23 tenths |
| `CacheFile.ThresholdsSettle` | config.c:47-129 | so that going through the file again changes no threshold |
| `CacheFile.RestoredIffNoMark` | config.c:59-68 | whatever the program starts from, its settings are restored if and only if none of them prints as the -1 that marks the run times |
| `RainDelaySpec.RunKeeps` | sd_cron.c:14-127 | in every run of rain events, requests, expiry checks, stops and kills the delay is on exactly when it has an end, and the file agrees |
| `RainDelaySpec.CheckExpires` | sd_cron.c:57-68 | right after an expiry check an active delay has not passed |
| `RainDelaySpec.CheckDecides` | sd_cron.c:57-68 | a check turns the delay off if and only if its end has passed; until then, the end included, it changes nothing |
| `RainDelaySpec.SwitchDecides` | sd_cron.c:82-102 | flag, end, file and all else after a switch: a delay newly switched on ends in a day, one that was on keeps its end |
| `RainDelaySpec.ResetDecides` | sd_cron.c:104-127 | flag, end, file and all else after a request for a time: that time if it is to come, otherwise in a day |
| `RainDelaySpec.ChecksLeave` | sd_cron.c:57-68 | any checks up to the end of a delay leave everything as it was |
| `RainDelaySpec.SetDelayLasts` | sd_cron.c:14-127 | after any event that leaves a delay on, any checks up to its end leave everything as the event left it |
| `RainDelaySpec.DelayLasts` | sd_cron.c:14-127 | and with stops and kills in between a delay is still on a minute before its end, with the end as it was or rounded once |
| `RainDelaySpec.DelayHasCause` | sd_cron.c:14-127 | a delay that survives a check was set by an event of the run to an end at most 64 seconds in the past, whatever restarts came between |
| `RainDelaySpec.RestartRestores` | config.c:76-129 | a restart restores the flag exactly and the end to within 64 seconds |
| `RainDelaySpec.FreshStart` | config.c:76-129 | without a file a new process starts with no delay, thresholds or readings |
| `RainDelaySpec.RestartForgets` | config.c:76-129 | a restart forgets the readings of today and leaves the file alone |
| `RainDelaySpec.RestartsSettle` | config.c:47-129 | further restarts add no error |
| `RainDelaySpec.StopRestores` | config.c:47-129 | a clean stop restores run times and chance below 2^24 exactly |
| `RainDelaySpec.ResetArmsIff` | sd_cron.c:104-127 | a request for a time arms the delay properly if and only if the time is not negative (or so near the top of an unsigned long that the clock has passed it) |
| `RainDelaySpec.NegativeTimeSticks` | sd_cron.c:57-127 | after a negative time no later check ends the delay |
| `RainDelaySpec.StopArmsIff` | config.c:90-110 | a clean stop and start leaves flag and end agreeing if and only if the delay was off, its end is at least 64 seconds before 2^31, or the machine makes a positive int of a float beyond it |
| `RainDelaySpec.ChanceDecides` | sd_cron.c:14-31 | flag, end, file and all else after a chance of rain: for a percentage, on with an end in a day if it has reached a threshold that is set, otherwise off |
| `RainDelaySpec.TotalDecides` | sd_cron.c:33-55 | flag, end, file and all else after a rain total: two days or one by the threshold a new total has reached, otherwise unchanged |
| `RainDelay.Sprinkler.WriteCache` | config.c:47-74 | the file is the printed settings, or as it was when it cannot be opened |
| `RainDelay.Sprinkler.ReadCache` | config.c:76-129 | the settings become those read from the file, line by line |
| `RainDelay.Sprinkler.EnableDelay24h` | sd_cron.c:82-102 | sets flag and end together and saves them, or does nothing when the flag is already so |
| `RainDelay.Sprinkler.ResetDelay24hTime` | sd_cron.c:104-127 | sets the end to the time asked for, or a day from now, and saves it |
| `RainDelay.Sprinkler.CheckDelay24h` | sd_cron.c:57-68 | turns a passed delay off and says so |
| `RainDelay.Sprinkler.SetTodayChanceOfRain` | sd_cron.c:14-31 | arms or turns off the delay by the threshold; refuses what is no percentage |
| `RainDelay.Sprinkler.SetTodayRainTotal` | sd_cron.c:33-55 | arms for one or two days by the thresholds; ignores a repeated total |
| `Glob.FoundIsMatch` | mongoose.c:2167-2210 | for every pattern a positive result is a match: that many characters from the front match one of the alternatives, with "*$" at its end read as "*" |
| `Glob.FoundIffFindable` | mongoose.c:2167-2210 | for every pattern the result is positive if and only if some alternative, so read, has a match that takes something, leaves no star at the end of the string and no star before what matches nothing |
| `Glob.TailMatches` | mongoose.c:2180-2209 | for every alternative what the loop finds, backtracking included, is a match that leaves no star at the end of the string, with "*$" at its end read as "*" |
| `Glob.StarDollarIsStar` | mongoose.c:2191-2192 | behind a star a $ at the end asks for nothing: for every pattern and string the result is that without it |
| `Glob.FoundAsItStandsIff` | mongoose.c:2180-2209 | what is found for an alternative is a match of it as it stands if and only if it does not end in a $ behind an odd number of stars, or the whole string was matched, or a $ of the string stands at the end |
| `Glob.AsItStandsIff` | mongoose.c:2180-2209 | an alternative with no $ but at its end finds nothing but matches, whatever the string, if and only if that $ is not behind an odd number of stars |
| `Glob.DollarAtEnd` | mongoose.c:2204-2206 | what a $ at the end of an alternative asks for: the end of the string, or a $ there |
| `Glob.StarAtTheEndIsMissed` | mongoose.c:2180-2209 | a star is not matched at the end of the string: "a*" against "a" |
| `Glob.DollarBehindStarIsIgnored` | mongoose.c:2191-2192 | "*$" matches the front of "a/" |
| `GlobLaws.AsDocumentedIff` | mongoose.h:2350-2356 | all that is found for an alternative with no $ but at its end is a match as documented, where a ? is no slash, if and only if that $ is not behind an odd number of stars and the alternative has no ?, or just one that is shielded: it is last but for an odd number of stars, three or more, and before it stands a "**" with nothing in between but slashes and stars in the order of `Shields` |
| `GlobLaws.FoundAsDocumented` | mongoose.c:2167-2210 | what is found for a pattern of such alternatives is a match of one of them as documented |
| `GlobLaws.AnyTakesSlash` | mongoose.h:2354 | "?" finds a match at the front of "/", where there is none as documented |
| `GlobLaws.StarsAreMatchedIff` | mongoose.h:2352-2353 | all that an alternative with no $ but at its end matches is found if and only if, but for the $, it does not end in a star, or is a single star, or an even number of stars |
| `GlobLaws.MatchedIsFound` | mongoose.c:2167-2210 | where all alternatives of a pattern end so, something is found for whatever one of them matches |
| `GlobLaws.OneMakesUpForAnother` | mongoose.c:2167-2210 | the alternatives "a*" and "a" together miss nothing that one of them matches, though "a*" does not end so |
| `Glob.Match` | mongoose.c:2167-2210 | the loops and recursion compute the result the lemmas are about, end on every input and never exceed the string |
| `GlobLaws.StarIsGreedy` | mongoose.c:2180-2201 | in a string that is not empty a star takes as much as it can, up to a slash for one star, so that something is found behind it, and at the end of an alternative all it can; where nothing is found, nothing is behind any part it could take |
| `GlobLaws.FirstAlternativeWins` | mongoose.c:2171-2178 | what is found for a pattern is what is found for the first of its alternatives for which something is |
| `GlobLaws.NoneFound` | mongoose.c:2171-2178 | and nothing if there is nothing for any of them |
| `GlobLaws.Examples` | mongoose.c:2167-2210 | alternatives, stars, a question mark, letter case and a $ |
| `UrlSpec.DecodeEncode` | mongoose.c:7248-7274 | decoding an encoded text, as a form or not, gives it back, or as much as there is room for |
| `UrlSpec.RoundTripIff` | mongoose.c:10620-10644 | encoding with a set of safe characters can be undone for every text if and only if % is not safe and, for a form, + is not safe, or, for anything else, a space does not become a + |
| `UrlSpec.HarmShows` | mongoose.c:7248-7274 | for any other set, a text that does not come back |
| `UrlSpec.EncodedAsIsIff` | mongoose.c:10620-10644 | a text is encoded as it is if and only if it holds nothing but letters, digits and safe characters |
| `UrlSpec.Examples` | mongoose.c:7248-7274 | texts with a space, a ~, a % and a +, encoded and decoded, as a form and not |
| `UrlSpec.BadEscapeIff` | mongoose.c:7248-7274 | a text is refused, where there is room, if and only if somewhere a % is not followed by two hexadecimal digits |
| `UrlSpec.DecodeRoom` | mongoose.c:7248-7274 | with less room the same text comes out, up to the last octet before the final zero |
| `Chars.SameLetter` | mongoose.c:2041-2055 | two characters are the same without regard to case if and only if they are the same or one letter in both cases |
| `UrlSpec.VariableComesBack` | mongoose.c:7276-7320 | for any list of pairs and any safe name, the first key equal to the name ignoring case gives its value back if it fits; -3 if not, -4 if there is no such key |
| `UrlSpec.VariableExamples` | mongoose.c:7276-7320 | queries with a variable, with too little room, malformed, without the variable, and an empty one, with their results |
| `UrlSpec.NameIsSafeIff` | mongoose.c:7276-7320 | a name is found in exactly the queries that have such a key if and only if it holds neither & nor = or does not look like the front of a query: pairs with encoded values, each followed by a &, and a key |
| `UrlSpec.NameAcrossPairs` | mongoose.c:7276-7320 | "a=&b" is found in the query "a=&b=", which has no such key |
| `Urls.EncodeText` | mongoose.c:10620-10644 | the encoded text and a zero, in a new buffer |
| `Urls.DecodeInto` | mongoose.c:7248-7274 | the decoded text, into another block or the same one, and a zero; -1 on a bad escape or too little room |
| `Urls.DecodeInPlace` | mongoose.c:7248-7274 | decoding over the input gives the same text as into a fresh block |
| `Urls.GetHttpVar` | mongoose.c:7276-7320 | finds and decodes the variable in place, with the error codes |
| `CronSpec.TimesAreStartPlusWaited` | sd_cron.c:161-181 | each printed time is the start plus the run times of the zones before |
| `CronSpec.TimesAreValid` | sd_cron.c:161-181 | with run times of at most an hour every printed time is a time of day |
| `CronSpec.OneCarryIff` | sd_cron.c:169-174 | one carry is enough from every minute if and only if the run time is at most 60 |
| `CronSpec.CommandTimeIff` | sd_cron.c:184-197 | a command is printed its minutes before the start, and as a time of day if and only if the hour before exists and is enough |
| `CronFile.CommandsAreFiled` | sd_cron.c:184-197 | the file has exactly one line for each day and command, its minutes before the start of the day, and no command line for another day or command |
| `CronFile.ZonesAreFiled` | sd_cron.c:159-181 | and for each day the lines of its zones in their order |
| `CronFile.PrintedIff` | sd_cron.c:161-181 | a zone has a line if and only if it has a run time and the zones before it do not run into the next day |
| `CronFile.NothingElse` | sd_cron.c:142-209 | how many lines the file has in all; it ends in the two lines that clear the chance of rain and the total, and a comment |
| `CronFile.ZoneLineSays` | sd_cron.c:225-270 | the numbers read from the line of a zone: the last two digits of its minute, the first two of zone and run time; it is not read when the hour or the day has three |
| `CronFile.LineChanges` | sd_cron.c:211-297 | a line sets the run time of its zone and, being the first of its day, the start, and nothing else; a line for no day or zone changes nothing |
| `CronFile.Week` | sd_cron.c:211-297 | a week is read, whatever the file, and a day without a line is off |
| `CronSpec.DecimalRoundTrip` | utils.c:314-326 | a printed number is read back |
| `CronSpec.CronGivesBack` | sd_cron.c:142-297 | what each day becomes in a file and back, commands or not |
| `CronSpec.DayComesBackIff` | sd_cron.c:211-297 | a day that starts at a time of day comes back if and only if it has a zone to run, its run times have at most two digits and no zone is left for the next day |
| `CronSpec.CronRoundTrip` | sd_cron.c:142-297 | with run times of at most an hour: if and only if it has a zone to run and the last one starts before midnight |
| `Cron.Calendar.Write` | sd_cron.c:142-209 | the file becomes the printed schedule of `CommandsAreFiled`, `ZonesAreFiled` and `NothingElse` |
| `Cron.Calendar.WriteZones` | sd_cron.c:159-181 | the lines of a day |
| `Cron.Calendar.Read` | sd_cron.c:211-297 | the schedule becomes what the lines say, the first line of a day giving its start |
| `Cron.ToInt` | utils.c:314-326 | the number at the front of a text |
| `TopicFilter.MatchIsMeaning` | mongoose.c:10882-10906 | the matcher means what section 4.7.1 of MQTT 3.1.1 says for every right filter of which no level is misread and every topic that does not end in an empty level |
| `TopicFilter.FilterIsRightIff` | mongoose.c:10882-10906 | a filter of which no level is misread agrees with the standard on all topics that do not end in an empty level if and only if it is right: without a # its last level is not empty, a # at the end is alone or behind a level that is not empty, and a # elsewhere is not followed by just one empty level |
| `TopicFilter.TopicIsRightIff` | mongoose.c:10882-10906 | a topic agrees with the standard on all such right filters if and only if it does not end in an empty level |
| `TopicFilter.OneLevelIff` | mongoose.c:10890-10898 | a filter of one level agrees with the standard if and only if `mg_vcmp` does not take the level for a + or a # that it is not |
| `TopicFilter.ShortIsReadable` | mongoose.c:10890-10898 | in no filter shorter than 2^32 octets does it |
| `TopicFilter.Examples` | mongoose.c:10882-10906 | "a/#" is matched by "a" and by "a/b", "+/b" and "a/+" by "a/b", and "a/+" not by "a" |
| `TopicFilter.TrailingSlashesAreDropped` | mongoose.c:10882-10906 | "a///" is matched by "a", and "a" matches "a//" |
| `TopicFilter.EmptyLevelBeforeHash` | mongoose.c:10882-10906 | "a//#" is matched by "a" |
| `TopicFilter.TrailingSlashIsDropped` | mongoose.c:10882-10906 | "a/" is matched by "a" |
| `TopicFilter.PlusMissesLastEmptyLevel` | mongoose.c:10882-10906 | "a/" is not matched by "a/+" |
| `TopicFilter.NextComponent` | mongoose.c:10868-10879 | the next level and what is left |
| `TopicFilter.Match` | mongoose.c:10882-10906 | the loop computes the relation the lemma is about and ends on every input |
| `Base64.DecodeEncode` | mongoose.c:396-415 | decoding gives the octets back and consumes the whole text |
| `Base64.Alphabet` | mongoose.c:298-299 | the characters are those of table 1 of RFC 4648 |
| `Base64.OnlyAlphabet` | mongoose.c:345-394 | characters outside the alphabet are not taken for ones in it, but for those that differ in the high bit only |
| `Base64.WholeGroup` | mongoose.c:396-415 | four characters of the alphabet give three octets with the same 24 bits |
| `Base64.StopsBefore` | mongoose.c:396-415 | less than four characters, or a foreign one among four, stop the decoder before them |
| `Base64.StopsAtPadding` | mongoose.c:396-415 | padding stops it behind the group, with the octets that are whole before it |
| `Base64.Vectors` | mongoose.c:296-320 | the texts of section 10 of RFC 4648 |
| `Base64.Context.Update` | mongoose.c:274-284 | what was put out is the text of the whole groups put in so far |
| `Base64.Context.Finish` | mongoose.c:286-295 | what was put out is the text of all that was put in |
| `Base64.EncodePieces` | mongoose.c:274-295 | any split of the input gives the text of the whole |
| `Base64.EncodeInto` | mongoose.c:332-334 | the one-shot encoder writes the same text, and a zero |
| `Base64.DecodeInto` | mongoose.c:396-415 | octets written and characters consumed |
| `CalendarTime.DayByDay` | mongoose.c:864-897 | the reference: the count starts on 1 January 1970 and goes up by one every Gregorian day |
| `CalendarTime.TimeGmIsSeconds` | mongoose.c:864-897 | from March 1968 on, for any month, day and time of day: the seconds since 1970, or -1 |
| `CalendarTime.TimeGmIsSecondsWhenInRange` | mongoose.c:864-897 | from 1900 on, when day and time of day are in range |
| `CalendarTime.DaysAreRightIff` | mongoose.c:883-895 | from 1900 on, the sum of days is the calendar count if and only if the divisions that cut off towards zero come out even |
| `CalendarTime.ParseDateIsLate` | mongoose.c:8199-8222 | a parsed date is the seconds since 1970, a day late in January and February of leap years |
| `CalendarTime.ParseDateAgreesIff` | mongoose.c:8194-8222 | the two agree after 1970 if and only if the date is not in January or February of a leap year |

## Left out

- UriPath.RefinesRfc3986: one way only for paths of several components of which one is misread, since a later `..` may remove it again; for a single component the condition is exact.
- WebSocketSend.SentArrives: payloads of 2^64 octets and more, which no `size_t` can hold, and for several pieces totals of 2^63 and more.
- CacheFile.TenthsPrintAgain: thresholds of 2^23 tenths and more, which a float may hold so coarsely that another tenth is printed.
- RainDelaySpec.RunKeeps: clocks and requested times up to 64 seconds before 2^31, and cache files that can be written; what a conversion of a larger float gives is a parameter of the functions, and what happens when a file cannot be written is not modelled.
- CronSpec.DayComesBackIff: days that start at a time of day; the regular expression is taken to split a printed line into its five numbers, the longest runs of at most two digits, and no command line to look like a zone.
- Glob.AsItStandsIff: alternatives with a `$` before their end, for which `Glob.FoundAsItStandsIff` decides each result by itself.
- GlobLaws.AsDocumentedIff: alternatives with a `$` before their end; mongoose.h:2350-2356 does not speak of `$`, which means in `Documented` what it means in the code.
- GlobLaws.StarsAreMatchedIff: the same; of patterns with several alternatives only that it is enough for each to end well (`GlobLaws.MatchedIsFound`), since one may find what another misses.
- Digests.Sha1Ctx.Update: what memory holds once a copy has left the block.
- TopicFilter.FilterIsRightIff: filters of several levels of which `mg_vcmp` misreads one, all of them longer than 2^32 octets.
- CalendarTime.TimeGmIsSeconds: sums that do not fit an int, which C leaves undefined, and years before 1900.
- MqttConn.ParsePacket: fields that a packet does not carry, which keep in the C struct what an earlier packet left there; buffers of 2^31 octets and more, whose length the int result does not hold.
- CoapMessage.Message.Parse: a token of which only the length has arrived is given as no token.
- WebSocketConn.Conn.Deliver: the order in which events and replies alternate within one call; both orders are kept separately. `mg_ws_close` with a length whose low 32 bits are all ones looks for a NUL past the end of the buffer; the model stops at the end.
- Buffers.Mbuf.Append: the callers in the protocols, but for `mg_coap_compose`, do not look whether memory ran out; the model of those callers gives them memory, through `Mbuf.Add` and `Queue`.
- RainDelay.Sprinkler.EnableDelay24h: a cache file that cannot be opened; so for all callers of `WriteCache`.
- The random masking keys of the client and all clock readings are parameters.
- Handlers: what user code does while it is called, but for the choice of deleting a chunk. `mg_http_handler` creates the saved state of a chunked body anew on every request header it parses (mongoose.c:6478-6481); the state is modelled as `mg_handle_chunked` keeps it.
- Memory outside an array (zone 0 in a cron line, run times beyond the last zone, octets behind the contents of a buffer that are set to zero): the model drops such writes.
- Non-conforming WebSocket peers get the step-by-step model of `Deliver`, but no theorem about a run.
- Block transforms of SHA-1 and MD5, and byte reversal on big-endian machines: the transform is any function.
- Sockets, polling, TLS, timers, CGI, SSI, WebDAV, file serving, multipart bodies, JSON, logging, GPIO, the zone controller, the configuration file and mounting of the root file system.
- The event mask with which SprinklerD notes that something is to be broadcast, and the change of the calendar flag, which is not saved until something else is.
- The MQTT broker's sessions and keep-alive timers, the sender of UNSUBSCRIBE, DNS records other than names, CoAP over the network.
