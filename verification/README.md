# The packet layer of the Zelda chat server: a Dafny model

This project models how the game and chat servers turn messages into bytes and
back, how packets are cut out of a TCP stream, and how the chat server relays and
broadcasts chat. It follows the C++ under `Zelda-Winapi/`.

**The codec.** `Codec.dfy` says, for any message schema, what parsing, serializing
and merging mean, as functions on values. A schema is a list of slots: a scalar, a
string, a packed list, a repeated submessage, or a oneof (a singular submessage is a
oneof with one case). `Messages.dfy` writes down the schemas of PlayerExtra,
MonsterExtra, ItemInfo, BuffData, ObjectInfo, S_TEST, S_AddObject, S_RemoveObject,
S_InventoryData, SS_RelayChat and SS_BroadcastChat. The theorems about every schema
are in `Projection`, `RoundTrip`, `LengthLimits`, `MergeAlgebra`, `Histories`,
`ParseGrowth`, `Failures` and `ComputedSizes`; `MessageFacts` and `Sizes` apply them to
these messages.

**The generated code.** `BuffMessage`, `TestMessage`, `LeafMessages`,
`ObjectMessage`, `InventoryMessage` and `ChatMessage` hold one class per message
layout, with the fields, caches, parse loops, serializers and size computations of
the generated C++. Each method is proved equal to the reference function, so the
theorems above are about the code. `Runtime` and `Varints` hold the calls the
generated code makes into the protobuf runtime that is kept in the repository. `Layout`
and `MessageLayouts` say byte by byte, by field name and without schemas, what is
written.

**Packets and chat.** `Framing` and `Receiving` model the 4-byte header, the receive
buffer and the framing loop; `Sessions` the locked session set and what every send
queue holds over any history; `Relay` the chat handler; `Runs` whole interleavings of
connects, disconnects, player moves and relays; `ChatServer` the whole from the bytes on
the connections to the queues and the Redis log.

Two limits matter for lengths. The runtime reads back a string, packed list or
submessage of at most INT_MAX - 16 bytes, and writes a message of at most INT_MAX bytes.
`Codec.Fits` says that every part of a message is within a limit. `LengthLimits` gives
the codec laws for messages of any size, with the limit as part of an exact condition;
`ComputedSizes` follows the 32-bit casts of the size computation.

`Failures.AfterFailure` is the message that a failed parse leaves behind: the records in
front of the failure, and what the failing switch case had already stored. It covers every
failure that does not depend on bytes beyond the end of the input: tag 0, an end-group
tag, the unassigned wire types, a tag, varint or length that is too long, a bad string,
and these inside a submessage or a packed list.

## What the code does where one might expect otherwise

- The relay handler ignores the result of its parse. After a failed one it relays what was
  left behind (`Relay.HandleRelayChat`). Unless the input was cut off inside a value, receivers
  drop that exactly when the failure was a bad string (`Relay.BadTextIsForwardedInVain`):
  0A 01 FF is such a packet (`Relay.BadTextPacket`, `Relay.BadBytePacket`), while a sender
  followed by a zero tag is relayed and decoded like any other (`Relay.ZeroTagPacket`).
- A relay can grow: `Relay.ParsedChatIsAccepted` bounds the growth by 5 bytes. A payload above
  65531 bytes wraps the 16-bit size (`Relay.OutcomeByLength`): at 65532 to 65535 bytes the
  header is written past the end of the send buffer and the handler goes on, at 65536 the
  assert aborts before anything is sent. `Relay.WrapIsReached` gives bodies of 65527 to 65530
  bytes for the first and of 65531 for the second.
- The serialization into a frame stands inside an assert. In a build without asserts every
  frame has a body of zeros (`Framing.MakeSendBufferUnchecked`), which no receiver accepts
  unless it is empty (`Framing.ZeroFrameIsRefused`).
- The framing loop never returns once it reaches a header of size 0
  (`Framing.StuckIff`); four zero bytes are enough (`Framing.ZeroBytesStick`). No
  frame that is built whole has one.
- Merging ObjectInfos is not associative (`MessageFacts.LeftoverExample`);
  `MessageFacts.ObjectInfoAssociativity` is the exact condition.
- A computed size can be wrong, because lengths are cast to 32 bits before their prefix is
  sized. `ComputedSizes.LengthPrefixIff` and `ComputedSizes.PackedPrefixIff` are the exact
  lengths: up to 4 GiB all are right, beyond that some are and the others come out too
  small; a packed list is first wrong at 2 GiB, where it comes out too large. No message that
  the runtime agrees to write is affected (`ComputedSizes.SizeAgreement`).
- The repository's own README says that without Redis chat falls back to a broadcast. The
  code also broadcasts every type other than GLOBAL and WHISPER when Redis is connected;
  the model follows the code.

## Model

| member | source | states |
|---|---|---|
| `RoundTrip.RoundTrips` | Zelda-Winapi/ChatServer/Struct.pb.cc:735-972 | Round trip, for every schema and message: a fresh message gets back exactly the message that was written (negative int32, raw float bits, empty submessages, oneofs and unknown fields included) if all its strings are UTF-8, and the parse fails otherwise |
| `RoundTrip.ParseSerialized` | Zelda-Winapi/ChatServer/Protocol.pb.cc:4745-4922 | Parse is merge: parsing the bytes of b into any message a gives exactly the merge of a and b, at every level, or fails exactly when a string of b is not UTF-8 |
| `LengthLimits.ParseSerializedAlways` | Zelda-Winapi/ChatServer/Protocol.pb.cc:4745-4922 | The same for messages of any size: the bytes of b parse to the merge exactly when its strings are UTF-8 and every part is at most INT_MAX - 16 bytes long, and fail otherwise |
| `LengthLimits.RoundTripIff` | Zelda-Winapi/ChatServer/Struct.pb.cc:735-972 | The round trip of every message, of any size: it comes back exactly under those two conditions |
| `MessageFacts.AddObjectRoundTrips` | Zelda-Winapi/ChatServer/Protocol.pb.cc:1731-1862 | S_AddObject round-trips for every list of objects, exactly when the lengths are within the limits and every object name is UTF-8 |
| `RoundTrip.ConcatenationMerges` | Zelda-Winapi/ChatServer/Protocol.pb.cc:4745-4922 | Parsing the concatenation of two serialized messages gives their merge |
| `RoundTrip.SerializeInjective` | Zelda-Winapi/ChatServer/Struct.pb.cc:873-972 | Two different messages never have the same bytes |
| `RoundTrip.MergeIntoDefault` | Zelda-Winapi/ChatServer/Struct.pb.cc:1071-1135 | Merging into a cleared message gives the merged-in message, so Clear-then-Merge is a copy |
| `RoundTrip.PackedRoundTrip` | Zelda-Winapi/ChatServer/Struct.pb.cc:434-441 | The payload of a packed list reads back as the list |
| `MergeAlgebra.MergeDefaultRight` | Zelda-Winapi/ChatServer/Struct.pb.cc:1071-1128 | The default message is a right identity of merge |
| `MergeAlgebra.AbsorbedIff` | Zelda-Winapi/ChatServer/Struct.pb.cc:1071-1128 | Merging z into x leaves z alone exactly when x holds no list, no unknown field, and no scalar or submessage part that z leaves visible |
| `MergeAlgebra.MergeAssociativeIff` | Zelda-Winapi/ChatServer/Struct.pb.cc:1071-1128 | Merge is associative on a, b, c exactly when at no level b switches a oneof away from a case that a and c share while c leaves something of a visible |
| `MergeAlgebra.MergeAssociative` | Zelda-Winapi/ChatServer/Protocol.pb.cc:1258-1277 | On messages whose oneofs have one case (all but ObjectInfo and what contains it) merge is associative |
| `MessageFacts.ObjectInfoAssociativity` | Zelda-Winapi/ChatServer/Struct.pb.cc:1071-1128 | For ObjectInfo the exact condition, read off the three `extra` cases and the fields of two submessages |
| `MessageFacts.LeftoverExample` | Zelda-Winapi/ChatServer/Struct.pb.cc:1112-1126 | Three ObjectInfos whose merge depends on the grouping: only the right grouping keeps the level of the first player |
| `Projection.ParseIsSlotwise` | Zelda-Winapi/ChatServer/Struct.pb.cc:735-871 | The parse loop succeeds exactly when the fold of every field over its own records succeeds; each field then holds its own fold and the unmatched records follow the old unknown fields in wire order |
| `Projection.ParseConcat` | Zelda-Winapi/ChatServer/Struct.pb.cc:735-871 | Parsing a concatenation is parsing the two parts one after the other |
| `Projection.AdjacentSwap` | Zelda-Winapi/ChatServer/Struct.pb.cc:735-871 | Swapping two adjacent records that go to different fields changes nothing; swapping two unknown ones changes only the order of the unknown fields |
| `Projection.SameProjectionsParseAlike` | Zelda-Winapi/ChatServer/Struct.pb.cc:735-871 | Inputs that agree field by field and on the unknown records parse to the same result |
| `MessageFacts.PermutedFieldsParseAlike` | Zelda-Winapi/ChatServer/Struct.pb.cc:735-871 | Any permutation that keeps the order within each field number (the cases of a oneof counting as one) leaves the same known fields, or fails alike |
| `MessageFacts.ObjectInfoFieldsCommute` | Zelda-Winapi/ChatServer/Struct.pb.cc:738-852 | Adjacent ObjectInfo records with different field numbers commute unless they are the two cases 100 and 101 |
| `Histories.OneofOverInput` | Zelda-Winapi/ChatServer/Struct.pb.cc:834-849 | A oneof over a whole input: the last record decides the case, and the submessage is one parse of the payloads since the last change of case |
| `MessageFacts.ExtraOverInput` | Zelda-Winapi/ChatServer/Struct.pb.cc:834-849 | The same for ObjectInfo.extra over a whole successful parse, starting from any message |
| `Histories.FoldParseIsOneParse` | Zelda-Winapi/ChatServer/Struct.pb.cc:834-849 | Parsing payload after payload into one submessage is one parse of their concatenation |
| `Histories.PackedOverInput` | Zelda-Winapi/ChatServer/Protocol.pb.cc:1975-1985 | Packed chunks and single varints in any mixture append all their values in wire order |
| `Histories.LastNumberWins` | Zelda-Winapi/ChatServer/Struct.pb.cc:741-775 | A scalar field over a whole input: the last record decides |
| `Histories.LastTextWins` | Zelda-Winapi/ChatServer/Struct.pb.cc:776-785 | A string field: the last record decides, and one record that is no UTF-8 fails the parse |
| `Histories.ElementsInOrder` | Zelda-Winapi/ChatServer/Protocol.pb.cc:1142-1154 | A repeated submessage: every record adds one element, parsed from a cleared one, in wire order |
| `MessageFacts.RemoveObjectIds` | Zelda-Winapi/ChatServer/Protocol.pb.cc:1969-2055 | S_RemoveObject: the ids of any parseable input are all its values in wire order, and they are written back as one packed record |
| `ParseGrowth.ReserializeIsStable` | Zelda-Winapi/ChatServer/Struct.pb.cc:853-862 | Unknown fields of any parseable input up to 1 GB are kept in wire order and written behind the known ones; what is written is at most twice as long and parses back to the same message |
| `LengthLimits.ReserializeIff` | Zelda-Winapi/ChatServer/Struct.pb.cc:853-862 | The same for input of any length: what is written parses back to the same message exactly when its parts are within the length limits |
| `ParseGrowth.MessageGrows` | Zelda-Winapi/ChatServer/Struct.pb.cc:735-972 | Parsing s into any message, at any nesting, adds at most twice the length of s to its encoding |
| `Histories.ParseKeepsTextOk` | Zelda-Winapi/ChatServer/Struct.pb.cc:776-785 | A successful parse never lets a string in that is not UTF-8, at any level |
| `Codec.NumberRoundTrip` | Zelda-Winapi/ChatServer/Struct.pb.cc:741-775 | Every scalar reads back as written: a negative int32 through ten bytes and its low 32 bits, a float through its raw bits |
| `Codec.NumberBits` | Zelda-Winapi/ChatServer/Struct.pb.cc:741-775 | The bits of a scalar: what is written is the number modulo 2^64 (a float its raw bits), what is read the number modulo 2^32 or 2^64 in the range of the field |
| `Codec.PackedInOrder` | Zelda-Winapi/ChatServer/Struct.pb.cc:434-441 | Packed values are written one after the other, each as its varint |
| `Codec.PackedReadInOrder` | Zelda-Winapi/Libraries/Include/google/protobuf/parse_context.h:821-831 | And read in that order, whatever their spelling |
| `Utf8.Utf8Iff` | Zelda-Winapi/ChatServer/Protocol.pb.cc:8352-8356 | A string is accepted exactly when it is the encoding of some Unicode scalar values, by the bit layout of section 3 of RFC 3629 |
| `Codec.Parse` | Zelda-Winapi/ChatServer/Struct.pb.cc:735-871 | The reference parser: its result, if any, is well formed: numbers in range, only unmatched records among the unknown fields |
| `Failures.FailureIsFailure` | Zelda-Winapi/ChatServer/Struct.pb.cc:735-871 | Where the model says what a failed parse leaves behind, the parse does fail |
| `Failures.FailureIsFinal` | Zelda-Winapi/ChatServer/Struct.pb.cc:863-871 | What such a failure leaves behind is the same whatever bytes follow the input |
| `Failures.FailureAfterPrefix` | Zelda-Winapi/ChatServer/Struct.pb.cc:735-871 | Behind input that parses, it starts from the message that this input was parsed to: the fields of the records before the failure |
| `Varints.AccumulateVarint` | Zelda-Winapi/Libraries/Include/google/protobuf/parse_context.cc:308-349 | The accumulating loop with its byte - 1 trick, wrapping at 64 or 32 bits, reads exactly the reference varint: same value, same length, same failures |
| `Varints.DecodeEncode` | Zelda-Winapi/Libraries/Include/google/protobuf/parse_context.h:537-552 | A varint reads back with its length, whatever follows it |
| `Varints.EncodedByte` | Zelda-Winapi/Libraries/Include/google/protobuf/io/coded_stream.h:898-922 | Byte i of a varint holds the seven bits from 7 i on, and all but the last have the top bit set |
| `Varints.DecodeIff` | Zelda-Winapi/Libraries/Include/google/protobuf/parse_context.cc:308-349 | For every input: what is read ends at the first byte without the top bit, if that is one of the first room bytes, and is the sum of the seven-bit groups |
| `Varints.EncodeIsShortest` | Zelda-Winapi/Libraries/Include/google/protobuf/parse_context.cc:327-338 | Re-encoding a value that was read, however overlong its spelling, never takes more bytes |
| `Varints.VarintSize64` | Zelda-Winapi/Libraries/Include/google/protobuf/io/coded_stream.h:1744-1755 | The size formula (9 log2 + 73) / 64 is the length of the encoding for every 64-bit value |
| `Varints.UnsafeVarint` | Zelda-Winapi/Libraries/Include/google/protobuf/io/coded_stream.h:898-922 | The writing loop, which sets the continuation bit of a byte after writing it, appends exactly the canonical encoding |
| `Wire.TokeniseEmitted` | Zelda-Winapi/Libraries/Include/google/protobuf/parse_context.h:881-926 | Canonical record bytes are split back into exactly the records written |
| `Wire.ReadRecordEmitted` | Zelda-Winapi/Libraries/Include/google/protobuf/parse_context.h:881-926 | One written record is read back whole, whatever follows it |
| `Wire.ReadRecordIff` | Zelda-Winapi/Libraries/Include/google/protobuf/parse_context.h:881-926 | For every input: a record is a tag of at most five bytes, whose low three bits are the wire type and whose other bits are the field number, and a payload laid out by the wire type |
| `Wire.ReadBodyIff` | Zelda-Winapi/Libraries/Include/google/protobuf/parse_context.cc:308-370 | The payload of every wire type byte by byte: a varint of at most ten bytes, eight or four bytes with the low one first, or a length of at most 2147483631 and that many bytes; nothing else is read |
| `Wire.ReadTagIff` | Zelda-Winapi/Libraries/Include/google/protobuf/parse_context.h:561-580 | A tag is a varint of at most five bytes, cut to 32 bits |
| `Wire.LittleEndianByte` | Zelda-Winapi/ChatServer/Struct.pb.cc:425-431 | Byte i of a fixed-width number holds the bits from 8 i on |
| `Wire.ReadLittleEndian` | Zelda-Winapi/ChatServer/Struct.pb.cc:370-377 | Four bytes are read with the low one first |
| `Wire.TokeniseConcat` | Zelda-Winapi/Libraries/Include/google/protobuf/parse_context.h:928-944 | Concatenating inputs concatenates their records when the first ends on a record boundary |
| `Wire.TokensOk` | Zelda-Winapi/ChatServer/Protocol.pb.cc:1112-1176 | Every record that is read is legal and takes at least two bytes, which bounds the turns of the parse loop by half the input |
| `Wire.TokeniseShrinks` | Zelda-Winapi/Libraries/Include/google/protobuf/wire_format.cc:192-228 | Writing the records of an input canonically never takes more bytes than the input had |
| `Runtime.ReadTagAt` | Zelda-Winapi/Libraries/Include/google/protobuf/parse_context.h:561-580 | A tag of at most five bytes, or a failed parse |
| `Runtime.ReadVarintAt` | Zelda-Winapi/Libraries/Include/google/protobuf/parse_context.h:722-733 | ReadVarint64 and ReadVarint32: the record read, its value cut to 64 or 32 bits, and where the next one starts |
| `Runtime.AccumulateSize` | Zelda-Winapi/Libraries/Include/google/protobuf/parse_context.cc:351-370 | A length prefix: at most five bytes and at most INT_MAX - 16 |
| `Runtime.ReadPayloadAt` | Zelda-Winapi/Libraries/Include/google/protobuf/parse_context.cc:391-396 | A length and exactly that many bytes inside the window, or a failed parse |
| `Runtime.ReadFixed32At` | Zelda-Winapi/ChatServer/Struct.pb.cc:370-377 | Four little-endian bytes inside the window |
| `Runtime.ReadUnknownAt` | Zelda-Winapi/Libraries/Include/google/protobuf/parse_context.h:881-926 | Any other record is read whole; tag 0, field number 0, end-group and the group types fail; a length-delimited field whose length is refused has already been added, empty |
| `Runtime.ReadNumber` | Zelda-Winapi/ChatServer/Struct.pb.cc:741-775 | A scalar switch case: the parse of the rest goes on with exactly that field replaced; a refused varint fails the parse, leaves 0 in the field, and an enum as it was |
| `Runtime.ReadText` | Zelda-Winapi/ChatServer/Struct.pb.cc:776-785 | A string switch case: the bytes are stored, then checked; on a bad string the parse fails and the stored bytes stay |
| `Runtime.ReadUnknown` | Zelda-Winapi/ChatServer/Struct.pb.cc:853-862 | The unusual tail of the switch: the record joins the unknown fields, or the parse fails and leaves what it had |
| `Runtime.WriteUnknown` | Zelda-Winapi/Libraries/Include/google/protobuf/wire_format.cc:192-228 | Appends the unknown fields in order, byte for byte canonical |
| `Runtime.UnknownSize` | Zelda-Winapi/Libraries/Include/google/protobuf/wire_format.cc:266-306 | The computed size of the unknown fields is the number of bytes written for them |
| `Runtime.FieldSize` | Zelda-Winapi/Libraries/Include/google/protobuf/wire_format_lite.h:1756-1771 | The computed size of a scalar field is the number of bytes written for it, zero for a default value |
| `ComputedSizes.LengthPrefixIff` | Zelda-Winapi/Libraries/Include/google/protobuf/wire_format_lite.h:1813-1820 | The exact lengths whose prefix is sized right after the cast to 32 bits: below 4 GiB, and below 32 GiB those whose low 32 bits are at least 2^28; no other computed size is right, and all of them are too small |
| `ComputedSizes.PackedPrefixIff` | Zelda-Winapi/ChatServer/Struct.pb.cc:459-471 | The same for a packed list, whose length is cast to a signed 32-bit integer: the exact lengths whose prefix is sized right, and from 2 GiB to 4 GiB it is always sized too large |
| `ComputedSizes.SizeAgreement` | Zelda-Winapi/Libraries/Include/google/protobuf/message_lite.cc:445-458 | For every message: ByteSizeLong is at most INT_MAX exactly when the encoding is that short, and then it is the length of the encoding |
| `ComputedSizes.ExactSizeIff` | Zelda-Winapi/ChatServer/Struct.pb.cc:974-1062 | For every message without packed lists, of any size: the computed size is never too large, and it is the length of the encoding exactly when every prefix at every level is sized right |
| `BuffMessage.BuffDataSizeIff` | Zelda-Winapi/ChatServer/Struct.pb.cc:451-488 | For BuffData it is the length of the encoding exactly when the prefix of its packed list is sized right |
| `MessageFacts.PackedFreeSchemas` | Zelda-Winapi/ChatServer/Protocol.pb.cc:8475-8516 | The chat messages, ObjectInfo, S_AddObject and S_InventoryData have no packed list |
| `Sizes.SmallFits` | Zelda-Winapi/Libraries/Include/google/protobuf/message_lite.cc:445-458 | If the encoding is at most n bytes long, so is every string, packed list and submessage in it, at every level |
| `BuffMessage.BuffData.constructor` | Zelda-Winapi/ChatServer/Struct.pb.cc:312-324 | A new message is the default message |
| `BuffMessage.BuffData.Copy` | Zelda-Winapi/ChatServer/Struct.pb.cc:295-310 | The copy constructor gives an equal message |
| `BuffMessage.BuffData.Clear` | Zelda-Winapi/ChatServer/Struct.pb.cc:343-354 | Clears every field to the default message |
| `BuffMessage.BuffData.MergeFrom` | Zelda-Winapi/ChatServer/Struct.pb.cc:497-517 | Is the reference merge |
| `BuffMessage.BuffData.CopyFrom` | Zelda-Winapi/ChatServer/Struct.pb.cc:519-524 | From any earlier state the result equals the source |
| `BuffMessage.BuffData.ParseField` | Zelda-Winapi/ChatServer/Struct.pb.cc:361-402 | After one turn of the tag switch, parsing the rest into the new message is parsing from this record into the old one, or the reference parse fails and leaves this message behind |
| `BuffMessage.BuffData.ParseVictims` | Zelda-Winapi/ChatServer/Struct.pb.cc:378-388 | Packed and unpacked spellings of victims both append in wire order |
| `BuffMessage.BuffData.InternalParse` | Zelda-Winapi/ChatServer/Struct.pb.cc:356-410 | The whole loop is the reference parse into the current message, and fails exactly when it fails; after a failed parse the message holds what the reference says is left behind |
| `BuffMessage.BuffData.ByteSizeLong` | Zelda-Winapi/ChatServer/Struct.pb.cc:451-488 | For every message the size is the computed size of the reference (the length of the encoding up to INT_MAX); afterwards the packed cache and the message cache are right |
| `BuffMessage.BuffData.InternalSerialize` | Zelda-Winapi/ChatServer/Struct.pb.cc:412-449 | With right caches the bytes are the reference encoding |
| `BuffMessage.PackedSize` | Zelda-Winapi/Libraries/Include/google/protobuf/wire_format_lite.cc:794-801 | The summed size is the length of the packed payload |
| `TestMessage.STest.constructor` | Zelda-Winapi/ChatServer/Protocol.pb.cc:1068-1079 | A new message is the default message |
| `TestMessage.STest.Copy` | Zelda-Winapi/ChatServer/Protocol.pb.cc:1051-1066 | The copy constructor gives an equal message with elements of its own |
| `TestMessage.STest.Clear` | Zelda-Winapi/ChatServer/Protocol.pb.cc:1099-1110 | Clears every field to the default message |
| `TestMessage.STest.MergeFrom` | Zelda-Winapi/ChatServer/Protocol.pb.cc:1258-1277 | Is the reference merge; every appended element is a fresh copy |
| `TestMessage.STest.CopyFrom` | Zelda-Winapi/ChatServer/Protocol.pb.cc:1279-1284 | From any earlier state the result equals the source |
| `TestMessage.STest.ParseBuffs` | Zelda-Winapi/ChatServer/Protocol.pb.cc:1142-1154 | The run loop with its pointer step back and forward, for every input (overlong first tags too) and every choice of DataAvailable, goes on like one dispatch per record |
| `TestMessage.STest.ParseField` | Zelda-Winapi/ChatServer/Protocol.pb.cc:1116-1167 | After one turn of the tag switch, a whole run included, parsing the rest into the new message is parsing from this record into the old one, or the reference parse fails and leaves this message behind |
| `TestMessage.STest.InternalParse` | Zelda-Winapi/ChatServer/Protocol.pb.cc:1112-1176 | The whole loop is the reference parse into the current message, and fails exactly when it fails; after a failed parse the message holds what the reference says is left behind |
| `TestMessage.STest.ByteSizeLong` | Zelda-Winapi/ChatServer/Protocol.pb.cc:1218-1249 | For every message one call gives the computed size (the length of the encoding up to INT_MAX) and leaves every cache right: the message, every element, every packed list |
| `TestMessage.STest.InternalSerialize` | Zelda-Winapi/ChatServer/Protocol.pb.cc:1178-1216 | With right caches the trusting serializer writes the reference encoding |
| `TestMessage.STest.SerializeToString` | Zelda-Winapi/Libraries/Include/google/protobuf/message_lite.cc:440-464 | One size computation and the trusting serializer together write the reference encoding of every message whose encoding is at most INT_MAX bytes, whatever the caches held before, and refuse every other |
| `LeafMessages.Triple.Copy` | Zelda-Winapi/ChatServer/Struct.pb.cc:1178-1192 | The copy constructor gives an equal message |
| `LeafMessages.Triple.MergeFrom` | Zelda-Winapi/ChatServer/Struct.pb.cc:1353-1371 | Is the reference merge |
| `LeafMessages.Triple.CopyFrom` | Zelda-Winapi/ChatServer/Struct.pb.cc:1373-1378 | From any earlier state the result equals the source |
| `LeafMessages.Triple.ParseField` | Zelda-Winapi/ChatServer/Struct.pb.cc:1239-1274 | After one turn of the tag switch, parsing the rest into the new message is parsing from this record into the old one, or the reference parse fails and leaves this message behind |
| `LeafMessages.Triple.InternalParse` | Zelda-Winapi/ChatServer/Struct.pb.cc:1648-1699 | PlayerExtra and ItemInfo: the whole loop is the reference parse; after a failed parse the message holds what the reference says is left behind |
| `LeafMessages.Triple.ByteSizeLong` | Zelda-Winapi/ChatServer/Struct.pb.cc:1733-1757 | The size is the length of the reference encoding, and the cache is right |
| `LeafMessages.Triple.InternalSerialize` | Zelda-Winapi/ChatServer/Struct.pb.cc:1701-1731 | Writes the reference encoding |
| `LeafMessages.MonsterExtra.CopyFrom` | Zelda-Winapi/ChatServer/Struct.pb.cc:1556-1561 | From any earlier state the result equals the source |
| `LeafMessages.MonsterExtra.MergeFrom` | Zelda-Winapi/ChatServer/Struct.pb.cc:1542-1554 | Is the reference merge |
| `LeafMessages.MonsterExtra.InternalParse` | Zelda-Winapi/ChatServer/Struct.pb.cc:1462-1497 | The whole loop is the reference parse; after a failed parse the message holds what the reference says is left behind |
| `LeafMessages.MonsterExtra.ByteSizeLong` | Zelda-Winapi/ChatServer/Struct.pb.cc:1519-1533 | The size is the length of the reference encoding, and the cache is right |
| `LeafMessages.MonsterExtra.InternalSerialize` | Zelda-Winapi/ChatServer/Struct.pb.cc:1499-1517 | Writes the reference encoding |
| `ObjectMessage.ObjectInfo.constructor` | Zelda-Winapi/ChatServer/Struct.pb.cc:650-674 | A new message is the default message with no extra |
| `ObjectMessage.ObjectInfo.Copy` | Zelda-Winapi/ChatServer/Struct.pb.cc:600-648 | The copy constructor (unknown fields, name, block copy, switch on the oneof) gives an equal message that shares no submessage |
| `ObjectMessage.ObjectInfo.ClearExtra` | Zelda-Winapi/ChatServer/Struct.pb.cc:698-718 | Leaves the oneof without a case |
| `ObjectMessage.ObjectInfo.MutablePlayer` | Zelda-Winapi/ChatServer/Struct.pb.h:1860-1867 | The current player if the case is right, else a new default one in place of whatever was set |
| `ObjectMessage.ObjectInfo.MutableMonster` | Zelda-Winapi/ChatServer/Struct.pb.h:1934-1941 | The same for the monster |
| `ObjectMessage.ObjectInfo.MergeExtra` | Zelda-Winapi/ChatServer/Struct.pb.cc:1112-1126 | The switch on the other message's case is the reference merge of the oneof |
| `ObjectMessage.ObjectInfo.Clear` | Zelda-Winapi/ChatServer/Struct.pb.cc:721-733 | Clears every field to the default message |
| `ObjectMessage.ObjectInfo.MergeFrom` | Zelda-Winapi/ChatServer/Struct.pb.cc:1071-1128 | Is the reference merge |
| `ObjectMessage.ObjectInfo.CopyFrom` | Zelda-Winapi/ChatServer/Struct.pb.cc:1130-1135 | From any earlier state the result equals the source |
| `ObjectMessage.ObjectInfo.ParsePlayer` | Zelda-Winapi/ChatServer/Struct.pb.cc:834-841 | Parses into the current or a fresh submessage, like one turn of the reference parse |
| `ObjectMessage.ObjectInfo.ParseField` | Zelda-Winapi/ChatServer/Struct.pb.cc:738-862 | After one turn of the tag switch, over all thirteen cases, parsing the rest into the new message is parsing from this record into the old one, or the reference parse fails and leaves this message behind |
| `ObjectMessage.ObjectInfo.InternalParse` | Zelda-Winapi/ChatServer/Struct.pb.cc:735-871 | The whole loop is the reference parse into the current message, and fails exactly when it fails; after a failed parse the message holds what the reference says is left behind |
| `ObjectMessage.ObjectInfo.ByteSizeLong` | Zelda-Winapi/ChatServer/Struct.pb.cc:974-1062 | For every message, name first, then the scalars, then the oneof: the sum is the computed size (the length of the encoding up to INT_MAX), and both levels of caches are right afterwards |
| `ObjectMessage.ObjectInfo.InternalSerialize` | Zelda-Winapi/ChatServer/Struct.pb.cc:873-972 | By field number, trusting the cached length: the bytes are the reference encoding |
| `InventoryMessage.InventoryData.Copy` | Zelda-Winapi/ChatServer/Protocol.pb.cc:4666-4686 | The copy constructor gives an equal message that shares no equipped item |
| `InventoryMessage.InventoryData.Clear` | Zelda-Winapi/ChatServer/Protocol.pb.cc:4723-4743 | Clears items and all three pointers |
| `InventoryMessage.InventoryData.MergeFrom` | Zelda-Winapi/ChatServer/Protocol.pb.cc:4900-4922 | Is the reference merge: items are appended as copies, absent pointers allocated |
| `InventoryMessage.InventoryData.CopyFrom` | Zelda-Winapi/ChatServer/Protocol.pb.cc:4924-4929 | From any earlier state the result equals the source |
| `InventoryMessage.InventoryData.ParseItems` | Zelda-Winapi/ChatServer/Protocol.pb.cc:4751-4763 | The run loop over items goes on like one dispatch per record, for every input |
| `InventoryMessage.InventoryData.ParseWeapon` | Zelda-Winapi/ChatServer/Protocol.pb.cc:4764-4771 | Parses into the present or a newly allocated item and touches no other submessage |
| `InventoryMessage.InventoryData.ParseField` | Zelda-Winapi/ChatServer/Protocol.pb.cc:4749-4800 | After one turn of the tag switch, parsing the rest into the new message is parsing from this record into the old one, or the reference parse fails and leaves this message behind |
| `InventoryMessage.InventoryData.InternalParse` | Zelda-Winapi/ChatServer/Protocol.pb.cc:4745-4809 | The whole loop is the reference parse into the current message, and fails exactly when it fails; after a failed parse the message holds what the reference says is left behind |
| `InventoryMessage.InventoryData.ByteSizeLong` | Zelda-Winapi/ChatServer/Protocol.pb.cc:4854-4891 | For every message one call gives the computed size (the length of the encoding up to INT_MAX) and leaves every cache of the message, its items and its equipped items right |
| `InventoryMessage.InventoryData.InternalSerialize` | Zelda-Winapi/ChatServer/Protocol.pb.cc:4811-4852 | With right caches the trusting serializer writes the reference encoding |
| `InventoryMessage.MutableItem` | Zelda-Winapi/ChatServer/Protocol.pb.h:7525-7532 | The present submessage, or a newly allocated default one |
| `ChatMessage.Chat.Copy` | Zelda-Winapi/ChatServer/Protocol.pb.cc:8239-8279 | The copy constructor gives an equal message |
| `ChatMessage.Chat.Clear` | Zelda-Winapi/ChatServer/Protocol.pb.cc:8327-8340 | Clears every field to the default message |
| `ChatMessage.Chat.MergeFrom` | Zelda-Winapi/ChatServer/Protocol.pb.cc:8525-8549 | Is the reference merge |
| `ChatMessage.Chat.CopyFrom` | Zelda-Winapi/ChatServer/Protocol.pb.cc:8551-8556 | From any earlier state the result equals the source |
| `ChatMessage.Chat.ParseField` | Zelda-Winapi/ChatServer/Protocol.pb.cc:8346-8407 | After one turn of the tag switch, parsing the rest into the new message is parsing from this record into the old one, or the reference parse fails and leaves this message behind |
| `ChatMessage.Chat.InternalParse` | Zelda-Winapi/ChatServer/Protocol.pb.cc:8342-8416 | The whole loop is the reference parse into the current message, and fails exactly when it fails; after a failed parse the message holds what the reference says is left behind |
| `ChatMessage.Chat.ByteSizeLong` | Zelda-Winapi/ChatServer/Protocol.pb.cc:8475-8516 | For every message, strings, then partyId, then type: the sum is the computed size (the length of the encoding up to INT_MAX) |
| `ChatMessage.Chat.InternalSerialize` | Zelda-Winapi/ChatServer/Protocol.pb.cc:8784-8839 | SS_BroadcastChat is written as the reference encoding, by field number |
| `BuffMessage.PackedUInt64Parser` | Zelda-Winapi/Libraries/Include/google/protobuf/parse_context.h:821-831 | The packed loop reads exactly the reference list, or fails where it fails with the values before the failure |
| `MessageLayouts.TripleBytes` | Zelda-Winapi/ChatServer/Struct.pb.cc:1701-1731 | PlayerExtra and ItemInfo on the wire: tags 8, 16 and 24 for (level, exp, maxExp) and (itemId, count, slot) |
| `MessageLayouts.MonsterExtraBytes` | Zelda-Winapi/ChatServer/Struct.pb.cc:1499-1517 | MonsterExtra: tag 8 for templateId |
| `MessageLayouts.BuffDataBytes` | Zelda-Winapi/ChatServer/Struct.pb.cc:412-449 | BuffData: tag 8 for buffId, tag 21 and four bytes, the low one first, for remainTime, tag 26 for the packed victims |
| `MessageLayouts.TestBytes` | Zelda-Winapi/ChatServer/Protocol.pb.cc:1178-1216 | S_TEST: tags 8, 16, 24 for id, hp, attack and tag 34 for every buff, in their order |
| `MessageLayouts.ObjectInfoBytes` | Zelda-Winapi/ChatServer/Struct.pb.cc:873-972 | ObjectInfo: the tag of each of its eleven fields by name, in ascending order, then A2 06 for the player or AA 06 for the monster, then the unknown fields |
| `MessageLayouts.InventoryBytes` | Zelda-Winapi/ChatServer/Protocol.pb.cc:4811-4852 | S_InventoryData: tag 10 for every item, in their order, then 18, 26 and 34 for weapon, armor and potion |
| `MessageLayouts.ChatBytes` | Zelda-Winapi/ChatServer/Protocol.pb.cc:8784-8839 | The chat messages: tags 10, 16, 26, 34 and 40 for sender, type, msg, target and partyId |
| `MessageLayouts.ObjectInfoTags` | Zelda-Winapi/ChatServer/Struct.pb.cc:738-852 | Which field every field number and wire type of ObjectInfo goes to, all others being unknown |
| `MessageLayouts.ChatTags` | Zelda-Winapi/ChatServer/Protocol.pb.cc:8349-8399 | The same for the chat messages |
| `MessageLayouts.FlatTags` | Zelda-Winapi/ChatServer/Struct.pb.cc:364-391 | The same for PlayerExtra, ItemInfo, MonsterExtra, BuffData and S_RemoveObject |
| `MessageLayouts.NestedTags` | Zelda-Winapi/ChatServer/Protocol.pb.cc:1116-1157 | The same for S_TEST, S_AddObject and S_InventoryData |
| `MessageLayouts.OverlongNumbers` | Zelda-Winapi/ChatServer/Protocol.pb.cc:8359-8399 | Ten bytes that are no varint leave partyId 0 behind, and the type as it was |
| `MessageLayouts.OverlongBuffNumbers` | Zelda-Winapi/ChatServer/Struct.pb.cc:364-391 | They leave buffId 0 behind, and one more 0 among the victims |
| `MessageLayouts.OverlongLengths` | Zelda-Winapi/ChatServer/Protocol.pb.cc:1142-1170 | Five bytes that are no length leave a new empty element behind, or an empty unknown field |
| `Sizes.TripleBound` | Zelda-Winapi/ChatServer/Struct.pb.cc:1733-1757 | ItemInfo and PlayerExtra take at most 33 bytes without unknown fields |
| `Sizes.InventoryFits` | Zelda-Winapi/ChatServer/Protocol.pb.cc:4854-4890 | S_InventoryData takes at most 35 n + 105 bytes, so up to 1869 items always fit a frame |
| `Sizes.FullInventorySize` | Zelda-Winapi/ChatServer/Protocol.pb.cc:4854-4890 | An inventory of n items of negative numbers takes exactly 35 n + 105 bytes, so the bound is tight and 1870 items no longer fit |
| `Sizes.ObjectInfoBound` | Zelda-Winapi/ChatServer/Struct.pb.cc:974-1062 | ObjectInfo with a name of at most 127 bytes takes at most 275 bytes |
| `Sizes.AddObjectFits` | Zelda-Winapi/ChatServer/Protocol.pb.cc:1846-1862 | S_AddObject with up to 235 such objects always fits a frame |
| `Sizes.FullObjectsSize` | Zelda-Winapi/ChatServer/Protocol.pb.cc:1846-1862 | n full objects take exactly 278 n bytes, so 236 of them no longer fit |
| `Sizes.ReencodingBound` | Zelda-Winapi/ChatServer/Protocol.pb.cc:8342-8473 | Writing back the known fields of a parsed flat message takes at most 5 bytes per int32 field more than was read |
| `Framing.MakeSendBuffer` | Zelda-Winapi/Client/ClientPacketHandler.h:102-116 | A frame with the true length is built exactly for computed sizes of at most 65531 bytes; beyond, the header overruns the buffer exactly for the sizes that are 65532 to 65535 modulo 65536, and SerializeToArray refuses all others |
| `Framing.FrameBytes` | Zelda-Winapi/Client/ClientPacketHandler.h:107-113 | The four bytes of a header: the length and the id, each with the low byte first |
| `Framing.MakeSendBufferUnchecked` | Zelda-Winapi/ChatServer/ChatPacketHandler.h:13-27 | Without asserts (NDEBUG) the serialization inside the assert is compiled away: the frame has the header and as many zero bytes as the narrowed size says |
| `Framing.ZeroFrameIsRefused` | Zelda-Winapi/Client/ClientPacketHandler.h:93-100 | Such a frame parses as no message of any type unless its body is empty |
| `Framing.SizeFieldWraps` | Zelda-Winapi/ChatServer/ChatPacketHandler.h:13-27 | The 16-bit packet size is the true frame length exactly for bodies of at most 65531 bytes |
| `Framing.FrameRoundTrip` | Zelda-Winapi/Client/ClientPacketHandler.h:93-100 | ParsePacket of a frame, whatever follows it in the buffer, gives the message back if its strings are UTF-8 |
| `Framing.NothingLost` | Zelda-Winapi/ServerCore/Session.cpp:322-345 | The delivered frames and the rest are the input, in order |
| `Framing.Resumes` | Zelda-Winapi/ServerCore/Session.cpp:322-345 | The framing loop can be stopped at any byte and resumed with the rest |
| `Framing.SplitsUniquely` | Zelda-Winapi/ServerCore/Session.cpp:322-345 | A concatenation of whole frames is cut into exactly those frames |
| `Framing.ChunkingIrrelevant` | Zelda-Winapi/ServerCore/Session.cpp:234-263 | However the stream is cut into receives, the frames of the whole stream are delivered |
| `Framing.SentFramesArrive` | Zelda-Winapi/ServerCore/Session.cpp:234-263 | Frames that were sent arrive one for one, in order, through any segmentation |
| `Framing.StuckIff` | Zelda-Winapi/ServerCore/Session.cpp:326-342 | The loop diverges exactly when the headers lead to one that announces size 0 |
| `Framing.HeaderBytes` | Zelda-Winapi/ServerCore/Session.cpp:326-342 | For every input: the receiver takes the first two bytes, low byte first, as the length of the packet, cuts off exactly that many bytes, waits if they are not all there, and the next two bytes are the id |
| `Framing.NoHeader` | Zelda-Winapi/ServerCore/Session.cpp:326-329 | Less than four bytes are kept until more arrive |
| `Framing.ZeroBytesStick` | Zelda-Winapi/ServerCore/Session.cpp:326-342 | Four zero bytes behind any whole frames are enough |
| `Receiving.RecvBuffer.OnRead` | Zelda-Winapi/ServerCore/RecvBuffer.cpp:38-45 | Drops n unread bytes, or refuses and changes nothing |
| `Receiving.RecvBuffer.OnWrite` | Zelda-Winapi/ServerCore/RecvBuffer.cpp:47-54 | Accepts n bytes at the write position if there is room |
| `Receiving.RecvBuffer.Clean` | Zelda-Winapi/ServerCore/RecvBuffer.cpp:18-36 | Wherever the block copy does not overlap itself: the unread bytes stay the same, the free space is exact, and up to nine buffers of unread bytes leave room for another |
| `Receiving.PacketSession.OnRecv` | Zelda-Winapi/ServerCore/Session.cpp:322-345 | Delivers the complete frames, returns their total length, and says when the C++ loop would not return |
| `Receiving.PacketSession.ProcessRecv` | Zelda-Winapi/ServerCore/Session.cpp:234-263 | After every receive, however the stream is cut: exactly the complete frames so far were delivered, the buffer holds the rest, the cursor checks never fail and 64 KB are free |
| `Receiving.PacketSession.ReceiveAll` | Zelda-Winapi/ServerCore/Session.cpp:234-263 | Bytes that arrive in any number deliver exactly the packets they complete, in receives of at most the free space |
| `Sessions.ChatSessionManager.Add` | Zelda-Winapi/ChatServer/ChatSessionManager.cpp:7-11 | One locked step; the set and every queue stay what the history says |
| `Sessions.ChatSessionManager.Remove` | Zelda-Winapi/ChatServer/ChatSessionManager.cpp:13-17 | The same for a disconnect |
| `Sessions.ChatSessionManager.BroadcastAll` | Zelda-Winapi/ChatServer/ChatSessionManager.cpp:19-26 | Every member gets the buffer once, nobody else does, in whatever order the set is iterated |
| `Sessions.ChatSession.OnConnected` | Zelda-Winapi/ChatServer/ChatSession.cpp:6-10 | A connecting session becomes a member, one step of the history |
| `Sessions.ChatSession.OnDisconnected` | Zelda-Winapi/ChatServer/ChatSession.cpp:12-16 | A disconnecting session stops being one |
| `Sessions.ChatSession.Send` | Zelda-Winapi/ServerCore/Session.cpp:19-32 | The buffer goes to the end of the queue |
| `Sessions.MemberIff` | Zelda-Winapi/ChatServer/ChatSession.cpp:6-16 | A session is a member exactly when it connected and has not disconnected since |
| `Sessions.ExactlyOnceInOrder` | Zelda-Winapi/ChatServer/ChatSessionManager.cpp:7-26 | A queue holds exactly the broadcasts made while its session was a member, once each and in order |
| `Sessions.GetsEverything` | Zelda-Winapi/ChatServer/ChatSessionManager.cpp:19-26 | A session that stays connected gets every broadcast |
| `Sessions.TotalOrder` | Zelda-Winapi/ChatServer/ChatSessionManager.cpp:7-26 | Over any interval in which both are connected two sessions are sent the same sequence |
| `Sessions.NoInversion` | Zelda-Winapi/ChatServer/ChatSessionManager.cpp:7-26 | No two sessions see two broadcasts in opposite orders |
| `Relay.SerializeChat` | Zelda-Winapi/ChatServer/ChatPacketHandler.cpp:40-50 | SerializeToString of a chat built by its setters: the reference encoding of the five fields if that is at most INT_MAX bytes long, else nothing |
| `Relay.RouteChat` | Zelda-Winapi/ChatServer/ChatPacketHandler.cpp:52-90 | One broadcast, one publication on the channel of the type and target location, the System notice to the sender's location, or nothing; never two of them |
| `Relay.HandleRelayChat` | Zelda-Winapi/ChatServer/ChatPacketHandler.cpp:28-91 | The whole handler: the five fields are those of the parsed message, or what the failed parse left behind; it relays payloads of at most 65531 bytes, aborts without any effect where the assert fails, and promises nothing after an overrun of the send buffer |
| `Relay.HandlePacket` | Zelda-Winapi/ChatServer/ChatPacketHandler.cpp:13-26 | Only packet id 301 has an effect; the same three outcomes |
| `Relay.OutcomeByLength` | Zelda-Winapi/ChatServer/ChatPacketHandler.h:13-27 | Up to INT_MAX the outcome can be read off the length of the payload: relayed up to 65531, overrun where the length is 65532 to 65535 modulo 65536, aborted otherwise |
| `Relay.ValidFrameIsRelayed` | Zelda-Winapi/ChatServer/ChatPacketHandler.cpp:28-91 | The relay of every valid framed SS_RelayChat has its five fields, always fits a frame, and decodes as SS_BroadcastChat to those fields |
| `Relay.RelayDropsUnknown` | Zelda-Winapi/ChatServer/ChatPacketHandler.cpp:40-50 | What is relayed is the encoding of the known fields; unknown fields are dropped |
| `Relay.PayloadDecodes` | Zelda-Winapi/Server/RedisSubscriber.cpp:32-34 | A relayed payload decodes to the same five fields exactly when their strings are UTF-8 |
| `Relay.ParsedChatIsAccepted` | Zelda-Winapi/ChatServer/ChatPacketHandler.cpp:28-91 | After a successful parse of any bytes the relayed payload is at most 5 bytes longer and every receiver decodes it |
| `Relay.ParsedChatOutcome` | Zelda-Winapi/ChatServer/ChatPacketHandler.cpp:28-91 | A body of less than 65527 bytes that parses is always relayed, and only one of the full 65531 can abort |
| `Relay.GrowthIsReached` | Zelda-Winapi/ChatServer/ChatPacketHandler.cpp:28-91 | Any sender with a type of -1 spelled in five bytes is relayed in five bytes more, so the 5 bytes are needed |
| `Relay.WrapIsReached` | Zelda-Winapi/ChatServer/ChatPacketHandler.h:13-27 | At every length from 65527 to 65530 there is a body that parses and overruns the send buffer, and at 65531 one that aborts |
| `Relay.AbortIsReached` | Zelda-Winapi/ChatServer/ChatPacketHandler.h:13-27 | A body that parses and aborts exists exactly at 65531 bytes |
| `Relay.BadTextIsForwardedInVain` | Zelda-Winapi/ChatServer/ChatPacketHandler.cpp:31-32 | After a failed parse the fields left behind are relayed all the same: receivers reject the payload exactly when the parse failed on a bad string, and decode it to those fields otherwise |
| `Relay.BadTextPacket` | Zelda-Winapi/ChatServer/ChatPacketHandler.cpp:31-50 | A packet with nothing but a sender that is no UTF-8 fails to parse and is relayed byte for byte |
| `Relay.BadBytePacket` | Zelda-Winapi/ChatServer/Protocol.pb.cc:8352-8361 | 0A 01 FF is such a packet, and no input of less than three bytes fails on a string |
| `Relay.ZeroTagPacket` | Zelda-Winapi/ChatServer/Protocol.pb.cc:8400-8412 | A sender followed by a tag of 0 and anything at all fails to parse, and the sender is relayed |
| `Relay.NoticeDecodes` | Zelda-Winapi/ChatServer/ChatPacketHandler.cpp:69-84 | A whisper to a player without a location from one with a location publishes the notice there, byte by byte: the sender System, the type 2, the text as the message, the whisperer as the target; it decodes exactly when text and whisperer are UTF-8 |
| `Relay.ChatFields` | Zelda-Winapi/ChatServer/ChatPacketHandler.cpp:40-50 | The payload byte by byte: each of the five fields by name behind its tag byte |
| `Relay.BroadcastFrame` | Zelda-Winapi/ChatServer/ChatPacketHandler.h:13-27 | The frame byte by byte: the length, the id 302 as 2E 01, and that payload |
| `Relay.NameBytes` | Zelda-Winapi/ChatServer/ChatPacketHandler.cpp:61-83 | The channel names, the location key and the sender of the notice, byte by byte |
| `Relay.WhisperChannelsDiffer` | Zelda-Winapi/ChatServer/ChatPacketHandler.cpp:67-69 | Every location has a whisper channel of its own, which starts with chat:whisper: and ends in the location, and none is the global channel |
| `Runs.BroadcastsOfRun` | Zelda-Winapi/ChatServer/ChatPacketHandler.cpp:52-90 | The broadcasts of a run are the frames of the relays routed to all sessions, in relay order |
| `Runs.ChannelOfRun` | Zelda-Winapi/ChatServer/ChatPacketHandler.cpp:58-85 | Over any run a Redis channel carries exactly the chats whose type and last recorded locations send them there, and the notices to senders located there, one each and in the order of the relays |
| `Runs.SubscriberOfLocation` | Zelda-Winapi/Server/RedisSubscriber.cpp:55-56 | What one game server gets on its two channels: every chat of type 0, and exactly the whispers to players last located there and the notices to whisperers there whose target has no location, in relay order |
| `Runs.ToAllOfRun` | Zelda-Winapi/ChatServer/ChatPacketHandler.cpp:52-90 | The frames a run sends to all sessions are those of exactly the chats of another type, or of every type without Redis, one each and in relay order |
| `Runs.StoreHoldsLast` | Zelda-Winapi/Server/ServerPacketHandler.cpp:465 | What the handler looks up is the location last recorded for that very player |
| `Runs.DeliveredWhileConnected` | Zelda-Winapi/ChatServer/ChatSessionManager.cpp:7-26 | From any history on, in every interleaving of connects, disconnects, moves and relays, the queue of a session that stays connected grows by exactly those frames, in that order |
| `Runs.SameForAll` | Zelda-Winapi/ChatServer/ChatSessionManager.cpp:19-26 | Any two sessions that stay connected over a run are sent the same frames in the same order |
| `Runs.Serve` | Zelda-Winapi/ChatServer/ChatSession.cpp:6-21 | One input handed to the session, the handler or Redis is one step of the run, or an abort without effect, or an overrun |
| `Runs.Run` | Zelda-Winapi/ChatServer/ChatSession.cpp:6-21 | Any sequence of inputs, up to the first abort or overrun: the session history, the publications and the locations are those of its run, and every session that stays connected has exactly the frames for all sessions appended to its queue; after an overrun nothing is promised |
| `ChatServer.PacketsAreFrames` | Zelda-Winapi/ServerCore/Session.cpp:234-263 | However the streams of the game servers are cut and interleaved, the packets that come from one connection are the frames of its stream |
| `ChatServer.ServedAsSent` | Zelda-Winapi/ServerCore/Session.cpp:322-345 | Frames sent over a new connection are served one for one and in order |
| `ChatServer.SentChatStep` | Zelda-Winapi/ChatServer/ChatPacketHandler.cpp:28-50 | A valid chat among them is relayed with exactly the fields its sender put in |
| `ChatServer.Operate` | Zelda-Winapi/ChatServer/ChatSession.cpp:18-21 | The server over any interleaving of connects, disconnects, moves and bytes on its connections: the inputs of its run are the packets of the streams; Redis, the session history and the queues are those of the run; and every connection has delivered exactly its packets, until a packet stops the server or a stream reaches a header of size 0 |

## Left out

- Groups (wire types 3 and 4): a record of either type fails the parse; the runtime keeps a well-formed unknown group.
- Runtime.ReadUnknownAt: refuses a well-formed unknown group.
- Runtime.ReadUnknown: refuses a well-formed unknown group.
- BuffMessage.BuffData.ParseField: refuses a well-formed unknown group.
- BuffMessage.BuffData.InternalParse: refuses a well-formed unknown group.
- TestMessage.STest.ParseField: refuses a well-formed unknown group.
- TestMessage.STest.InternalParse: refuses a well-formed unknown group.
- LeafMessages.Triple.ParseField: refuses a well-formed unknown group.
- LeafMessages.Triple.InternalParse: refuses a well-formed unknown group.
- ObjectMessage.ObjectInfo.ParseField: refuses a well-formed unknown group.
- ObjectMessage.ObjectInfo.InternalParse: refuses a well-formed unknown group.
- InventoryMessage.InventoryData.ParseField: refuses a well-formed unknown group.
- InventoryMessage.InventoryData.InternalParse: refuses a well-formed unknown group.
- ChatMessage.Chat.ParseField: refuses a well-formed unknown group.
- ChatMessage.Chat.InternalParse: refuses a well-formed unknown group.
- LeafMessages.MonsterExtra.InternalParse: refuses a well-formed unknown group.
- The recursion limit of 100: no message here nests deeper than three levels.
- The chunked input stream and its slop bytes: the input is one byte sequence with limits, and reading past a limit fails. The only trace is DataAvailable, which may end a run of submessages at any point.
- What a failed parse leaves behind when the input, or a payload in it, ends inside a value or at a group: the C++ then depends on the stream that is not modelled. The contracts only say that the message is well formed.
- Relay.BadTextIsForwardedInVain: says nothing of such an input.
- Relay.HandlePacket: after such an input the contract only says that some five fields are relayed; the same holds for Relay.HandleRelayChat.
- Framing.ParsePacket: gives no message after a failed parse; the C++ returns whatever the failed parse left behind, which is `Failures.AfterFailure`.
- ComputedSizes.ExactSizeIff: is stated without packed lists and `BuffMessage.BuffDataSizeIff` for BuffData alone; beyond INT_MAX bytes S_TEST has only the direction of `ComputedSizes.ExactSize`, because a packed prefix sized too large can cancel a submessage prefix sized too small.
- ParseGrowth.ReserializeIsStable: is for input of at most 1 GB without unknown groups; `LengthLimits.ReserializeIff` is the exact statement for any length.
- LengthLimits.ReserializeIff: is for input without unknown groups.
- Sessions.ChatSessionManager.BroadcastAll: assumes that no send fails at once. In the C++ a WSASend that fails with a reset connection calls Disconnect, OnDisconnected and Remove on the same thread (`Zelda-Winapi/ServerCore/Session.cpp:191-199`, `:293-306`, `:39-50`), which asks for the lock that BroadcastAll holds.
- The overlapping storage of the oneof and the raw block copies: a tagged value and assignments stand for them, and the deleted submessage of a changed case is simply dropped.
- One class stands for PlayerExtra and ItemInfo, and one for SS_RelayChat and SS_BroadcastChat: their generated code differs in names only.
- S_AddObject and S_RemoveObject have no class of their own: their mechanisms are those of S_TEST and BuffData; the theorems about their schemas hold all the same.
- The other generated messages, enum validity tables, arenas, descriptors, reflection, `release_*` and `set_allocated_*`.
- A repeated field appends new elements; the reuse of cleared elements is not modelled.
- Packets shorter than the header handed to the handler (a frame of announced size 1 to 3): `ChatServer.Operate` stops at one.
- What happens after a send buffer was overrun: the contracts only say when it is.
- Relay.HandleRelayChat: is the handler of a build with asserts; without them the frame is that of `Framing.MakeSendBufferUnchecked`, and what is published on Redis is the same.
- ObjectMessage.ObjectInfo.ClearExtra: drops the submessage; that the C++ deletes it is not modelled.
- Sessions.ChatSession.Send: appends to the queue; registering the send and draining the queue to the socket are not modelled.
- Logging, including the UTF-8 check on serializing, which only logs.
- Sockets, completion ports, threads and memory order: a locked method is one atomic step, a send queue is a growing FIFO and its draining to the socket is not modelled.
- A run (`Runs`) ends where a relay aborts or overruns; what follows is not modelled.
- Threads within a run: a receive and the packets it completes are served in one go, though the handlers of other connections may run in between in the C++; a run of such an interleaving is covered by `Runs.Run`.
- The receive side and the send side of a connection are two objects; nothing ties the bytes that arrive to a session being connected.
- Redis errors and timing: Redis is a map, a log of publications and a flag fixed at startup. The text of the System notice is a parameter.
- The game server behind the subscription, rooms, parties, dungeons, inventory rules and the client.
