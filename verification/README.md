# Whiteboard wire codec and RCF core

A Dafny model of the parts of the shared-whiteboard client library that decide
what travels between clients: the generated Protocol Buffers code for the
messages they exchange, and three pieces of the bundled RCF remote-call library.
`dafny verify dfyconfig.toml` checks everything.

The model has two layers. Code that updates objects in place is written as classes
with the same fields, methods with the same branches, and loops with invariants.
Each of those methods is specified by functions on values, and the laws are lemmas
about these functions.

## What is modelled

**The wire codec** (`Prelude` to `CodecTheorems`, `WireMeaning` to `LimitExamples`, then
the classes).
`Operations`, `Operation`, `OperationData`, `Point` and `Document`. `MessageEngine`
states once the loop that every generated parser runs: read a tag, read the field it
announces, give the field to the message (`Run`). `...Codec` modules give each
message its step, its merge and its serialized fields. `CodedStream`, `CodedTarget` and
`CodedOutput` are the protobuf coded streams, and `PointMessage`, `OperationDataMessage`,
`OperationMessage`, `OperationsMessage` and `DocumentMessage` are the generated
classes: has bits, lazily allocated submessages, the parser with its `ExpectTag`
jumps (the variable `jump` holds the tag whose case is entered in the middle), the
block-guarded `Clear`, `MergeFrom` and `ByteSize`, and both serializers. Floats are
their 32-bit patterns. Groups among unknown fields are included, with the recursion
limit, as `depth`. Inputs and encodings are shorter than 2^31 bytes, since the library
counts them in an `int`.

A parse counts as accepted if the parser returns true at a legitimate end, which is
what `ReadMessageNoVirtual` asks and, with the required fields, `ParseFromArray`. What
end is legitimate depends on the stream's total bytes limit of 64 MiB. Limits cut the
buffer only once one has been pushed, that is once a submessage is entered, and the
total limit is then no legitimate end for `ReadTag`; but `ExpectAtEnd`, which closes
the case of a message's last field, takes it for one. `TotalLimit` says what an end is
(`End`: legitimate, cut, or that of an array over the limit which nothing has cut yet)
and what every parser makes of its input up to an end of that kind (`RunTo`,
`Parse...To`, and `...FromArray` for a whole array). The parser of a submessage has a
legitimate end unless the total limit cuts the submessage short.

Three modules say what the bytes are without any parser or serializer. `WireMeaning`:
which inputs are accepted, which field decides each member, what is left unknown, and
when a message is initialized. `WireBytes`: the literal tags of each message and what
follows them. `DefaultLimits`: what `ParseFromArray` accepts with 64 levels and 64 MiB,
for every array.

What holds, and what does not, for every message and every array:

- *Concatenation parses as merge* is not true of every accepted input. A submessage
  that declares more bytes than its parent has left is accepted, cut short, because
  `PushLimit` keeps the enclosing limit; if more bytes follow, it absorbs them.
  `CodecExamples` shows it: `OverrunExample` and `AbsorbedExample` on four bytes,
  `InitializedOverrunExample` and `InitializedAbsorbedExample` on inputs whose required
  fields are all there. Within the limit the law holds for an accepted input, whatever
  follows, exactly when its last field is not such a submessage
  (`OperationsConcatIff`, `OperationConcatIff`, `DataConcatIff`, by `ArrayParsing.ConcatIff`).
  What a serializer has written never overruns (`SentOneAfterAnother`).
- *Over the limit* an array is accepted exactly if its first 64 MiB are an accepted
  input that ends in an element, whole or cut short there and closed itself; the rest
  is dropped (`OperationsOverLimit`; `OperationsConcatOverLimit` for two accepted inputs
  that are too long together). An array without submessages is never cut, and its
  own end is not legitimate: it is rejected (`ElementFreeOverLimit`,
  `DocumentOverLimit`). If the first submessage begins beyond the limit, the library's
  buffer ends before it begins; what follows is not defined (`Outcome.Undefined`,
  `Breaks`).
- *Round trip*: a message whose encoding is under 2^31 bytes comes back exactly when
  the encoding is within the limit and the unknown fields are ones the parser itself
  would leave unknown and keep unchanged (`OperationsRoundTripIff` and its like). Every
  parsed message has such fields, and merging keeps them. Over the limit what is
  written may still be accepted, but never as the message that was written
  (`OperationsCutDiffers`); `LimitExamples.ElementDropped` gives messages that are read
  as themselves without their last element.
- *Normalisation*: writing a parsed document and parsing it again gives the same
  document, in no more bytes (`DocumentNormalisation`). For operations that holds
  whenever twice the input is within the limit, or every negative number in it came
  with its sign extended to 64 bits; in general exactly if what is written is within
  the limit, and that is at most twice what was read, since an int32 read from five
  bytes can take ten (`OperationsNormalisation`). `LimitExamples.WrittenBackTooLong`
  gives accepted inputs for which it does not hold.
- The jumping parser has the outcome of the plain loop, which reads every tag, on every
  array but those over the limit whose first 64 MiB are an accepted input that ends in
  an element; the plain loop rejects these (`OperationsJumpsAgree`).
  `LimitExamples.ClosedAtLimit` gives such arrays.
- The sizes are exact, both serializers write the same bytes, and `Clear` and
  `CopyFrom` are right because a member whose has bit is clear always holds its
  default.
- Setters reached through `mutable_...()` and `add_...()` write through all the way up
  (`Operations.SetPointX`, `Operations.AddNumbered`).

**Timers** (`Heaps`, `TimerOrder`, `TimerHeap`). `push_heap`, `pop_heap` and `make_heap` on a
vector, RCF's `Heap`, and `TimerHeap`, whose comparator works on `time - base` modulo
2^32. `TimerOrder` relates it to a priority queue on an unbounded clock. `rebase`
keeps the heap ordered exactly when every entry is less than 2^32 - 10000 ms after
the top (`RebaseKeepsOrder`; `RebaseBreaksOrder` gives two entries for which it does
not), that is when every deadline lies in the window it moves to (`RebaseStaysLive`).
Draining returns exactly the expired entries if and only if expiry is monotone in the
deadline, which it is when all deadlines lie between nearly five days before
the clock and 44 days after it. The clock is a parameter.

**Slicing** (`ByteBuffer`). `forEachByteBuffer` with its cursor that stops moving: the
slices join to the window of the joined buffers.

**Calls** (`Marshal`, `Parameters`, `Candidates`, `Future`). The client and server parameter
packs for any signature and version, between a client and a server that know different
numbers of parameters, over any serialization that reads back what it wrote; the
list of candidate futures; the duty to issue a call that copies of a `FutureImpl`
pass on. The last is not conserved by every step: assigning to a copy that still
owes its call loses the call, and converting a copy that owes nothing starts it
again. `ConservesIffFair` says that these two are the only ones.

Where the library's comments and its code differ the code is followed. The comment on
`generateTimeoutMs` names 10% of the clock's range as the time a deadline stays
expired; the constant leaves slightly more than that, 429496734 ms
(`ExpiredMeansPassed`).

## Model

| member | source | states |
|---|---|---|
| Varint.VarintRoundTrip | OwbClientlibXcode/ThridParty/protobuf/src/google/protobuf/io/coded_stream.cc:404-425 | A 64-bit number written as a varint is read back, whatever follows it. |
| Varint.Varint32RoundTrip | OwbClientlibXcode/ThridParty/protobuf/src/google/protobuf/io/coded_stream.h:727-735 | A 32-bit varint read gives back a 32-bit number. |
| Varint.VarintSizeExact | OwbClientlibXcode/ThridParty/protobuf/src/google/protobuf/io/coded_stream.cc:795-834 | The size tables give the exact length of the encoding, for every 64-bit number. |
| Varint.VarintExtend | OwbClientlibXcode/ThridParty/protobuf/src/google/protobuf/io/coded_stream.cc:292-322 | A varint that can be read is read the same when bytes are appended. |
| Varint.VarintBytes | OwbClientlibXcode/ThridParty/protobuf/src/google/protobuf/io/coded_stream.cc:681-757 | A varint is seven bits a byte, the low ones first, with a continuation bit on all bytes but the last, and as short as can be. |
| Varint.VarintReads | OwbClientlibXcode/ThridParty/protobuf/src/google/protobuf/io/coded_stream.cc:292-322 | A varint is read up to the first byte without a continuation bit, which must be one of the first ten; bits beyond the 64th, or the 32nd, are dropped. |
| Varint.Fixed32Bytes | OwbClientlibXcode/ThridParty/protobuf/src/google/protobuf/io/coded_stream.h:925-936 | A 32-bit fixed number is its four bytes, the lowest first. |
| Varint.Fixed64Bytes | OwbClientlibXcode/ThridParty/protobuf/src/google/protobuf/io/coded_stream.h:938-960 | A 64-bit fixed number is its low half and then its high half. |
| Prelude.SignExtendRoundTrip | OwbClientlibXcode/ThridParty/protobuf/src/google/protobuf/wire_format_lite_inl.h:55-63 | A negative int32, sign-extended to ten bytes, comes back from the low 32 bits. |
| WireFormat.SkipEncodedField | OwbClientlibXcode/ThridParty/protobuf/src/google/protobuf/wire_format.cc:82-140 | Any field, groups nested within the recursion limit included, is skipped whole and captured unchanged. |
| WireFormat.SkipFieldExtend | OwbClientlibXcode/ThridParty/protobuf/src/google/protobuf/wire_format.cc:82-160 | Skipping a field depends on the field's own bytes only. |
| WireFormat.SkipFieldWire | OwbClientlibXcode/ThridParty/protobuf/src/google/protobuf/wire_format.cc:82-160 | A captured field is one the skipper would capture again: legal tag, int-sized length, nesting within the limit. |
| WireFormat.EncodeFieldsConcat | OwbClientlibXcode/ThridParty/protobuf/src/google/protobuf/wire_format.cc:162-197 | Unknown fields are written one after the other. |
| WireFormat.FieldBytes | OwbClientlibXcode/ThridParty/protobuf/src/google/protobuf/wire_format.cc:162-197 | A field is eight times its number plus the wire type, as a varint, and then what it holds; a group ends in a tag of its own. |
| MessageEngine.RunConcat | OwbClientlibXcode/ProtoBuffer/message.pb.cc:862-1114 | An accepted input that does not end in a cut submessage can be followed by anything: the parse goes on from the message reached. |
| MessageEngine.NextFieldAbsorb | OwbClientlibXcode/ThridParty/protobuf/src/google/protobuf/io/coded_stream.cc:99-123 | A submessage cut short by its limit takes at least one byte of whatever is appended. |
| MessageEngine.RunAbsorbs | OwbClientlibXcode/ThridParty/protobuf/src/google/protobuf/io/coded_stream.cc:99-123 | After a cut submessage, an appended unknown field never arrives as a field of the message itself. |
| MessageEngine.RunMerge | OwbClientlibXcode/ProtoBuffer/message.pb.cc:1425-1477 | Parsing into a merged message merges the parse into it, if every single field does. |
| MessageEngine.RunFolds | OwbClientlibXcode/ProtoBuffer/message.pb.cc:862-1114 | An accepted parse is determined by its fields in wire order alone. |
| MessageEngine.RunEncoded | OwbClientlibXcode/ProtoBuffer/message.pb.cc:1206-1301 | Parsing serialized fields hands the message each of them in turn. |
| MessageEngine.RunKeeps | OwbClientlibXcode/ProtoBuffer/message.pb.cc:862-1114 | What every field keeps, every parse keeps. |
| MessageEngine.NextFieldIff | OwbClientlibXcode/ThridParty/protobuf/src/google/protobuf/wire_format.cc:82-140 | Exactly which fields can be read, groups aside: no zero tag, no unknown wire type, nothing cut short, no string of 2^31 bytes or more, no submessage too deep. |
| MessageEngine.OtherGroupEnds | OwbClientlibXcode/ThridParty/protobuf/src/google/protobuf/wire_format.cc:112-121 | A group that ends in the END_GROUP tag of another number cannot be read. |
| MessageEngine.FieldsLength | OwbClientlibXcode/ThridParty/protobuf/src/google/protobuf/wire_format.cc:82-140 | The fields of an input, submessages cut short and nested groups included, are never written in more bytes than they were read from. |
| MessageEngine.CutFields | OwbClientlibXcode/ThridParty/protobuf/src/google/protobuf/wire_format_lite_inl.h:397-412 | Where an encoding is cut short, fewer fields can be read, or as many with the last a submessage that has lost the end of its data. |
| TotalLimit.NestedTurn | OwbClientlibXcode/ThridParty/protobuf/src/google/protobuf/wire_format_lite_inl.h:397-412 | A submessage decides the parse as ReadMessageNoVirtual does: it is not defined where the total limit lies before it, otherwise the nested parse, whose end is cut only if the limit cuts it short, lets the parse go on or rejects it. |
| ArrayParsing.OpenAccepts | OwbClientlibXcode/ThridParty/protobuf/src/google/protobuf/io/coded_stream.cc:86-123 | An array over the total limit is accepted exactly if its first 64 MiB are an accepted input with a submessage whose last field closes the message; it is then parsed as these. |
| ArrayParsing.FlatOverLimit | OwbClientlibXcode/ThridParty/protobuf/src/google/protobuf/io/coded_stream.cc:347-374 | Serialized fields that are no submessages are rejected beyond the limit, since nothing cuts the array there and its end is not legitimate. |
| ArrayParsing.LastClosesIff | OwbClientlibXcode/ThridParty/protobuf/src/google/protobuf/io/coded_stream.h:875-886 | An input is closed exactly if all of it can be read and its last field closes it. |
| ArrayParsing.ArrayJumpsAgree | OwbClientlibXcode/ThridParty/protobuf/src/google/protobuf/io/coded_stream.h:875-886 | For every message: the parser with jumps differs from the plain loop exactly on arrays over the limit whose first 64 MiB are an accepted input with a submessage and a closing last field; it accepts these and the plain loop rejects them. |
| ArrayParsing.ConcatIff | OwbClientlibXcode/ThridParty/protobuf/src/google/protobuf/io/coded_stream.cc:99-123 | For every message: whatever is appended within the limit parses as the merge exactly when the input does not overrun or no room is left. |
| PointCodec.PointMergeAssociative | OwbClientlibXcode/ProtoBuffer/message.pb.cc:681-692 | Merging points is associative. |
| PointCodec.PointParseMerges | OwbClientlibXcode/ProtoBuffer/message.pb.cc:549-600 | Parsing into a merged point merges. |
| PointCodec.PointRoundTrip | OwbClientlibXcode/ProtoBuffer/message.pb.cc:549-637 | A point with canonical unknown fields is read back as written, negative coordinates included. |
| OperationDataCodec.DataMergeUnit | OwbClientlibXcode/ProtoBuffer/message.pb.cc:1425-1477 | The empty data are a unit of merging, on both sides. |
| OperationDataCodec.DataMergeAssociative | OwbClientlibXcode/ProtoBuffer/message.pb.cc:1425-1477 | Merging is associative, with nested points merged recursively. |
| OperationDataCodec.DataParseMerges | OwbClientlibXcode/ProtoBuffer/message.pb.cc:862-1114 | Parsing into merged data merges, each point recursively. |
| OperationDataCodec.DataParseCanonical | OwbClientlibXcode/ProtoBuffer/message.pb.cc:862-1114 | Parsing keeps unknown fields canonical, undeclared data types included. |
| OperationDataCodec.DataSizes | OwbClientlibXcode/ProtoBuffer/message.pb.cc:1303-1411 | The sizes of the fields add up to the length of the wire form, in whatever order they are visited. |
| OperationCodec.OperationMergeAssociative | OwbClientlibXcode/ProtoBuffer/message.pb.cc:1750-1761 | Merging operations is associative, with nested data merged recursively. |
| OperationCodec.OperationParseMerges | OwbClientlibXcode/ProtoBuffer/message.pb.cc:1617-1666 | Parsing into a merged operation merges. |
| OperationsCodec.OperationsMergeAssociative | OwbClientlibXcode/ProtoBuffer/message.pb.cc:2032-2041 | Merging appends the operations and lets the later state win; it is associative. |
| OperationsCodec.OperationsParseMerges | OwbClientlibXcode/ProtoBuffer/message.pb.cc:1891-1946 | Parsing into merged operations merges. |
| OperationsCodec.OperationsParseCanonical | OwbClientlibXcode/ProtoBuffer/message.pb.cc:1891-1946 | Parsing keeps the whole tree canonical. |
| WireMeaning.PointMeans | OwbClientlibXcode/ProtoBuffer/message.pb.cc:549-600 | A point is accepted exactly if all its fields can be read; each coordinate is that of its last field, and what is no coordinate is unknown. |
| WireMeaning.DataMeans | OwbClientlibXcode/ProtoBuffer/message.pb.cc:862-1114 | The same for operation data: which field decides each of the fifteen members, the last declared type, the points from all their pieces together, and what is left unknown. |
| WireMeaning.OperationMeans | OwbClientlibXcode/ProtoBuffer/message.pb.cc:1617-1671 | The same for an operation, its data from all their pieces together. |
| WireMeaning.OperationsMeans | OwbClientlibXcode/ProtoBuffer/message.pb.cc:1891-1946 | The same for a list of operations: the last declared state, and an element for every field 2, in order. |
| WireMeaning.DocumentMeans | OwbClientlibXcode/ProtoBuffer/message.pb.cc:2166-2230 | The same for a document. |
| WireMeaning.PointInitializedIff | OwbClientlibXcode/ProtoBuffer/message.pb.cc:706-710 | A parsed point is initialized exactly if varint fields 1 and 2 are among its fields. |
| WireMeaning.DataInitializedIff | OwbClientlibXcode/ProtoBuffer/message.pb.cc:1491-1513 | Parsed data are initialized exactly if their fields hold a declared type and a varint 2, and the fields of every point that is there both coordinates. |
| WireMeaning.OperationInitializedIff | OwbClientlibXcode/ProtoBuffer/message.pb.cc:1775-1782 | A parsed operation is initialized exactly if its fields hold a varint 1 and data, and these all they require. |
| WireMeaning.OperationsInitializedIff | OwbClientlibXcode/ProtoBuffer/message.pb.cc:2055-2062 | A parsed list is initialized exactly if its fields hold a declared state, and every element all it requires. |
| WireMeaning.DocumentInitializedIff | OwbClientlibXcode/ProtoBuffer/message.pb.cc:2370-2374 | A parsed document is initialized exactly if its fields hold a varint 1 and a field 2. |
| WireMeaning.PointWritten | OwbClientlibXcode/ProtoBuffer/message.pb.cc:706-710 | A point is initialized exactly if its own serialized fields hold varints 1 and 2. |
| WireMeaning.DataWritten | OwbClientlibXcode/ProtoBuffer/message.pb.cc:1491-1513 | Data are initialized exactly if their own serialized fields, and those of their points, hold what is required. |
| WireMeaning.OperationWritten | OwbClientlibXcode/ProtoBuffer/message.pb.cc:1775-1782 | The same for an operation. |
| WireMeaning.OperationsWritten | OwbClientlibXcode/ProtoBuffer/message.pb.cc:2055-2062 | The same for a list of operations. |
| WireMeaning.DocumentWritten | OwbClientlibXcode/ProtoBuffer/message.pb.cc:2370-2374 | The same for a document. |
| WireBytes.PointWireBytes | OwbClientlibXcode/ProtoBuffer/message.pb.cc:620-637 | The bytes of a point: tags 08 and 10, ten bytes for a negative coordinate, then the unknown fields. |
| WireBytes.DataWireBytes | OwbClientlibXcode/ProtoBuffer/message.pb.cc:1206-1301 | The bytes of operation data: fifteen members in order under their literal tags, numbers as varints, floats as four bytes, flags as one, points with their length. |
| WireBytes.FlagBytes | OwbClientlibXcode/ThridParty/protobuf/src/google/protobuf/wire_format_lite_inl.h:562-565 | After the members before it, fill is 68 01 exactly if it is true and 68 00 exactly if it is false; is_start is 78 01 and 78 00. |
| WireBytes.OperationWireBytes | OwbClientlibXcode/ProtoBuffer/message.pb.cc:1687-1706 | The bytes of an operation: tag 08 and its number, tag 12 and its data. |
| WireBytes.OperationsWireBytes | OwbClientlibXcode/ProtoBuffer/message.pb.cc:1968-1988 | The bytes of a list: tag 08 and the state, tag 12 and each element in order. |
| WireBytes.DocumentWireBytes | OwbClientlibXcode/ProtoBuffer/message.pb.cc:2262-2291 | The bytes of a document: tags 08, 12 and 1A, with the lengths of the strings. |
| DefaultLimits.AcceptsWithin | OwbClientlibXcode/ThridParty/protobuf/src/google/protobuf/io/coded_stream.h:539-542 | Within 64 MiB ParseFromArray accepts exactly the arrays all of whose fields, up to 64 levels deep, can be read and hold every required number; it holds what they mean. |
| DefaultLimits.AcceptsBeyond | OwbClientlibXcode/ThridParty/protobuf/src/google/protobuf/io/coded_stream.h:875-886 | Beyond, an array is accepted exactly if its first 64 MiB can be read and end in an element, whole or cut short where it ends in its data, and these in is_start; it holds what they mean. |
| DefaultLimits.UndefinedIff | OwbClientlibXcode/ThridParty/protobuf/src/google/protobuf/io/coded_stream.cc:97-126 | What follows the first submessage of a longer array is not defined exactly if that begins beyond 64 MiB. |
| DefaultLimits.RoundTripWithin | OwbClientlibXcode/ThridParty/protobuf/src/google/protobuf/io/coded_stream.h:539-542 | With the limits the stream starts with, a message comes back exactly if it is canonical for 64 levels and takes no more than 64 MiB. |
| DefaultLimits.CanonicalWithoutGroups | OwbClientlibXcode/ThridParty/protobuf/src/google/protobuf/io/coded_stream.h:539-542 | A message without unknown groups that is canonical at any depth is so for 64 levels. |
| DefaultLimits.SixtyFiveGroups | OwbClientlibXcode/ThridParty/protobuf/src/google/protobuf/io/coded_stream.h:1018-1021 | Groups nested 65 deep are rejected, whatever is in them and follows. |
| DefaultLimits.SixtyFourGroups | OwbClientlibXcode/ThridParty/protobuf/src/google/protobuf/io/coded_stream.h:1018-1021 | Nested no deeper than 64 they are accepted and kept. |
| CodecTheorems.OperationsConcatIff | OwbClientlibXcode/ProtoBuffer/message.pb.cc:1891-1946 | For an accepted array: every accepted array appended within the limit parses as the merge exactly when the first does not overrun or no room is left. |
| CodecTheorems.OperationConcatIff | OwbClientlibXcode/ProtoBuffer/message.pb.cc:1617-1666 | The same for an operation. |
| CodecTheorems.DataConcatIff | OwbClientlibXcode/ProtoBuffer/message.pb.cc:862-1114 | The same for operation data. |
| CodecTheorems.DocumentConcat | OwbClientlibXcode/ProtoBuffer/message.pb.cc:2166-2232 | A document has no submessages: within the limit concatenation always parses as merge. |
| CodecTheorems.SentOneAfterAnother | OwbClientlibXcode/ProtoBuffer/message.pb.cc:1891-1988 | Two canonical messages written one after the other within the limit are read as their merge. |
| CodecExamples.OverrunExample | OwbClientlibXcode/ThridParty/protobuf/src/google/protobuf/wire_format_lite_inl.h:397-412 | Two bytes that announce a five-byte submessage and end are an accepted operation, required fields aside. |
| CodecExamples.AbsorbedExample | OwbClientlibXcode/ThridParty/protobuf/src/google/protobuf/wire_format_lite_inl.h:397-412 | Two more bytes, a serial number by themselves, become a data type inside that submessage. |
| CodecExamples.InitializedOverrunExample | OwbClientlibXcode/ThridParty/protobuf/src/google/protobuf/message_lite.cc:119-147 | An input that ParseFromArray accepts, required fields and all, whose element announces more than it has. |
| CodecExamples.InitializedAbsorbedExample | OwbClientlibXcode/ThridParty/protobuf/src/google/protobuf/message_lite.cc:119-147 | A second such input, a state by itself, becomes a serial number inside the element when it is appended, and ParseFromArray accepts that too. |
| CodecTheorems.OperationsOverLimit | OwbClientlibXcode/ThridParty/protobuf/src/google/protobuf/io/coded_stream.cc:86-97 | Over the limit: accepted exactly if the first 64 MiB parse and end in an element, whole or cut short and closed itself; then these are what is parsed. |
| CodecTheorems.OperationsConcatOverLimit | OwbClientlibXcode/ThridParty/protobuf/src/google/protobuf/io/coded_stream.cc:86-97 | Two accepted arrays too long together, the first not overrunning: accepted exactly if the part of the second that fits parses and ends in an element, and then as the merge with that part. |
| CodecTheorems.OperationOverLimit | OwbClientlibXcode/ThridParty/protobuf/src/google/protobuf/io/coded_stream.cc:86-97 | The same for an operation, which its data must end. |
| CodecTheorems.DataOverLimit | OwbClientlibXcode/ThridParty/protobuf/src/google/protobuf/io/coded_stream.cc:86-97 | The same for operation data, which a flag must end and a point must come before. |
| CodecTheorems.DocumentOverLimit | OwbClientlibXcode/ThridParty/protobuf/src/google/protobuf/io/coded_stream.cc:347-374 | A document over the limit is rejected, whatever is in it. |
| CodecTheorems.ElementFreeOverLimit | OwbClientlibXcode/ThridParty/protobuf/src/google/protobuf/io/coded_stream.cc:347-374 | A canonical message without elements is rejected if its encoding is over the limit. |
| CodecTheorems.OperationsJumpsAgree | OwbClientlibXcode/ProtoBuffer/message.pb.cc:1891-1946 | The jumping parser and the plain loop differ exactly on arrays over the limit whose first 64 MiB are an accepted input that an element ends; the former accepts these, the latter rejects them. |
| CodecTheorems.OperationsJumpsDiffer | OwbClientlibXcode/ProtoBuffer/message.pb.cc:1924-1929 | A message of exactly 64 MiB that ends in an element, and any more bytes after it: the jumping parser takes the message and drops the bytes, the plain loop rejects them all. |
| LimitExamples.ClosedAtLimit | OwbClientlibXcode/ThridParty/protobuf/src/google/protobuf/io/coded_stream.h:875-886 | Such a message, required fields and all, for any bytes that fill it and any that follow. |
| LimitExamples.ElementDropped | OwbClientlibXcode/ThridParty/protobuf/src/google/protobuf/io/coded_stream.h:875-886 | A message with one more element, whose encoding is over the limit, is read as the message without it. |
| CodecTheorems.DataCutDiffers | OwbClientlibXcode/ProtoBuffer/message.pb.cc:1093-1097 | Data cut short where the parser takes the cut for their end are never parsed as the data that were written. |
| CodecTheorems.OperationCutDiffers | OwbClientlibXcode/ProtoBuffer/message.pb.cc:1645-1649 | The same for an operation. |
| CodecTheorems.OperationsCutDiffers | OwbClientlibXcode/ProtoBuffer/message.pb.cc:1924-1929 | The same for a list of operations: the last element is missing or differs. |
| CodecTheorems.OperationsRoundTripIff | OwbClientlibXcode/ProtoBuffer/message.pb.cc:1891-1988 | Under 2^31 bytes, serialize-then-parse gives the message back exactly if it is canonical and its encoding is within the total limit. |
| CodecTheorems.OperationRoundTripIff | OwbClientlibXcode/ProtoBuffer/message.pb.cc:1617-1706 | The same for an operation. |
| CodecTheorems.DataRoundTripIff | OwbClientlibXcode/ProtoBuffer/message.pb.cc:862-1301 | The same for operation data, all fifteen members and the unknown fields. |
| CodecTheorems.DocumentRoundTripIff | OwbClientlibXcode/ProtoBuffer/message.pb.cc:2166-2291 | The same for a document. |
| Normalisation.Int32Length | OwbClientlibXcode/ThridParty/protobuf/src/google/protobuf/wire_format_lite_inl.h:55-63 | An int32 is written in at most twice the bytes it was read from, and in no more if its sign came extended. |
| Normalisation.DataGrows | OwbClientlibXcode/ProtoBuffer/message.pb.cc:862-1114 | Parsing into operation data makes them longer by at most twice the input, or by no more than the input if every sign came extended, those of the points included. |
| Normalisation.OperationsGrows | OwbClientlibXcode/ProtoBuffer/message.pb.cc:1891-1988 | The same for a list of operations, through the whole tree. |
| Normalisation.OperationsNormalisation | OwbClientlibXcode/ProtoBuffer/message.pb.cc:1891-1988 | Writing a parsed message and parsing it again gives the same message whenever twice the input is within the limit or every sign in it came extended, and in general exactly if what is written, at most twice what was read, is within the limit; whatever the order, repetition, wire types or enum values of the input. |
| Normalisation.DocumentNormalisation | OwbClientlibXcode/ProtoBuffer/message.pb.cc:2166-2291 | A parsed document is written in no more bytes than it was read from, and parsing these always gives it back. |
| LimitExamples.WrittenBackTooLong | OwbClientlibXcode/ThridParty/protobuf/src/google/protobuf/wire_format_lite_inl.h:55-63 | Inputs within the limit that ParseFromArray accepts, with any negative thickness sent in five bytes, whose parse is written back over the limit and is not read as the same message again. |
| CodecTheorems.OperationsMergeCanonical | OwbClientlibXcode/ProtoBuffer/message.pb.cc:2032-2041 | Merging keeps messages canonical. |
| CodecTheorems.OperationsMergeInitialized | OwbClientlibXcode/ProtoBuffer/message.pb.cc:2055-2062 | Two initialized messages merge to an initialized one. |
| CodecTheorems.OperationMergeInitialized | OwbClientlibXcode/ProtoBuffer/message.pb.cc:1775-1782 | The same for operations, through the nested data and points. |
| CodecTheorems.InvalidEnumsStayUnknown | OwbClientlibXcode/ProtoBuffer/message.pb.cc:1898-1915 | The state is set exactly if some field 1 holds a declared value; the undeclared ones end up unknown, sign-extended, and alone leave the message uninitialized. |
| CodedStream.CodedInputStream.ReadVarint64 | OwbClientlibXcode/ThridParty/protobuf/src/google/protobuf/io/coded_stream.cc:404-425 | The loop reads what the encoding defines, and fails on an eleventh byte or the end. |
| CodedStream.CodedInputStream.ReadVarint32 | OwbClientlibXcode/ThridParty/protobuf/src/google/protobuf/io/coded_stream.h:727-735 | The one-byte fast path and the general path read the same number. |
| CodedStream.CodedInputStream.ReadTag | OwbClientlibXcode/ThridParty/protobuf/src/google/protobuf/io/coded_stream.h:812-821 | Zero at the end of the buffer, which is legitimate unless the total limit has cut it or it lies beyond that; zero, without a legitimate end, where no tag can be read. |
| CodedStream.CodedInputStream.ExpectTag | OwbClientlibXcode/ThridParty/protobuf/src/google/protobuf/io/coded_stream.h:831-852 | True exactly if the expected tag comes next in its shortest form, of at most two bytes; it is then consumed, and otherwise nothing is. |
| CodedStream.CodedInputStream.ExpectAtEnd | OwbClientlibXcode/ThridParty/protobuf/src/google/protobuf/io/coded_stream.h:875-886 | True exactly at an end of the buffer that a limit has drawn back from the end of the array. |
| CodedStream.CodedInputStream.PushLimit | OwbClientlibXcode/ThridParty/protobuf/src/google/protobuf/io/coded_stream.cc:86-123 | The new limit is never beyond the old one, and the buffer ends at it or at the total limit; where that lies before the position, what follows is not defined. |
| CodedStream.CodedInputStream.PopLimit | OwbClientlibXcode/ThridParty/protobuf/src/google/protobuf/io/coded_stream.cc:86-134 | The old limit is back, the buffer ends at it or at the total limit, and the end is no longer legitimate. |
| CodedStream.CodedInputStream.EnterMessage | OwbClientlibXcode/ThridParty/protobuf/src/google/protobuf/wire_format_lite_inl.h:397-412 | Length, recursion and limit of a submessage: not defined exactly if the total limit lies before it, otherwise it succeeds exactly if the length can be read and the recursion limit allows it. |
| CodedStream.CodedInputStream.SkipField | OwbClientlibXcode/ThridParty/protobuf/src/google/protobuf/wire_format.cc:82-140 | The skipper reads what the value-level skipper reads, or fails where that fails. |
| CodedStream.CodedInputStream.SkipMessage | OwbClientlibXcode/ThridParty/protobuf/src/google/protobuf/wire_format.cc:142-160 | A group is read up to the END_GROUP tag of its own number. |
| CodedTarget.WriteVarint64ToArray | OwbClientlibXcode/ThridParty/protobuf/src/google/protobuf/io/coded_stream.cc:681-778 | The array holds the varint at the target and is otherwise unchanged. |
| CodedTarget.SerializeUnknownFieldsToArray | OwbClientlibXcode/ThridParty/protobuf/src/google/protobuf/wire_format.cc:199-232 | Unknown fields, groups included, are stored at the target and nothing else changes. |
| CodedTarget.ComputeUnknownFieldsSize | OwbClientlibXcode/ThridParty/protobuf/src/google/protobuf/wire_format.cc:298-344 | The exact length of the unknown fields. |
| CodedTarget.Int32Size | OwbClientlibXcode/ThridParty/protobuf/src/google/protobuf/io/coded_stream.h:984-990 | The exact length of an int32, ten for a negative one. |
| CodedTarget.WrittenMessage | OwbClientlibXcode/ThridParty/protobuf/src/google/protobuf/wire_format_lite_inl.h:704-712 | A prefix and the bytes after it make the field of a submessage. |
| CodedOutput.CodedOutputStream.WriteVarint64 | OwbClientlibXcode/ThridParty/protobuf/src/google/protobuf/io/coded_stream.cc:754-774 | Through a ten-byte buffer the stream gets the same varint. |
| CodedOutput.CodedOutputStream.SerializeUnknownFields | OwbClientlibXcode/ThridParty/protobuf/src/google/protobuf/wire_format.cc:162-197 | The stream gets the unknown fields, groups included. |
| PointMessage.Point.SetX | OwbClientlibXcode/ProtoBuffer/message.pb.h:1478-1481 | Sets the member and its has bit, nothing else. |
| PointMessage.Point.ClearX | OwbClientlibXcode/ProtoBuffer/message.pb.h:1471-1474 | Back to the default, has bit clear. |
| PointMessage.Point.SetY | OwbClientlibXcode/ProtoBuffer/message.pb.h:1500-1503 | Sets the member and its has bit, nothing else. |
| PointMessage.Point.ClearY | OwbClientlibXcode/ProtoBuffer/message.pb.h:1493-1496 | Back to the default, has bit clear. |
| PointMessage.Point.Clear | OwbClientlibXcode/ProtoBuffer/message.pb.cc:540-547 | The guarded reset leaves every member at its default. |
| PointMessage.Point.MergeFrom | OwbClientlibXcode/ProtoBuffer/message.pb.cc:681-692 | The point becomes the merge of the two, and the source is unchanged. |
| PointMessage.Point.CopyFrom | OwbClientlibXcode/ProtoBuffer/message.pb.cc:700-704 | The point shows what the source showed, itself included. |
| PointMessage.Point.IsInitialized | OwbClientlibXcode/ProtoBuffer/message.pb.cc:706-710 | True exactly if both coordinates are set. |
| PointMessage.Point.Swap | OwbClientlibXcode/ProtoBuffer/message.pb.cc:712-720 | The two points change places. |
| PointMessage.Point.MergePartialFromCodedStream | OwbClientlibXcode/ProtoBuffer/message.pb.cc:549-600 | The parser with its jumps has the outcome of the value-level parse, and reaches the same point, for every kind of end. |
| PointMessage.Point.ReadMessage | OwbClientlibXcode/ThridParty/protobuf/src/google/protobuf/wire_format_lite_inl.h:397-412 | A nested point is read from its own bytes, and the stream goes on after them. |
| PointMessage.Point.ByteSize | OwbClientlibXcode/ProtoBuffer/message.pb.cc:639-667 | Returns and caches the exact length. |
| PointMessage.Point.SerializeWithCachedSizesToArray | OwbClientlibXcode/ProtoBuffer/message.pb.cc:620-637 | Writes the wire form at the target and returns its end. |
| PointTable.Points.Mutable | OwbClientlibXcode/ProtoBuffer/message.pb.h:1593-1597 | Sets the has bit, allocates a cleared point if there is none, and shows what was there. |
| PointTable.Points.Release | OwbClientlibXcode/ProtoBuffer/message.pb.h:1598-1603 | Hands the point out, well formed, clears the bit, and keeps no alias. |
| PointTable.Points.Clear | OwbClientlibXcode/ProtoBuffer/message.pb.h:1586-1589 | The point is cleared and its bit too; the others are unchanged. |
| PointTable.Points.ClearAll | OwbClientlibXcode/ProtoBuffer/message.pb.cc:826-860 | Guarded block by block, every point ends cleared and every bit clear. |
| PointTable.Points.MergeFrom | OwbClientlibXcode/ProtoBuffer/message.pb.cc:1425-1477 | Every point of the source is merged into its counterpart; blocks without bits are skipped safely. |
| PointTable.Points.Read | OwbClientlibXcode/ProtoBuffer/message.pb.cc:921-934 | A nested point is merged from its bytes; its bit is set even if that fails. |
| PointTable.Points.AllInitialized | OwbClientlibXcode/ProtoBuffer/message.pb.cc:1491-1513 | True exactly if every set point is initialized. |
| PointTable.Points.ByteSize | OwbClientlibXcode/ThridParty/protobuf/src/google/protobuf/wire_format_lite_inl.h:764-768 | The exact size of the field, and the point's own size is cached. |
| PointTable.Points.Serialize | OwbClientlibXcode/ThridParty/protobuf/src/google/protobuf/wire_format_lite_inl.h:704-712 | Writes the field with the cached size as its length. |
| OperationDataMembers.ClearResets | OwbClientlibXcode/ProtoBuffer/message.pb.cc:826-860 | The block guards skip nothing that needs clearing, because a clear has bit means a default. |
| OperationDataMembers.MergeGuards | OwbClientlibXcode/ProtoBuffer/message.pb.cc:1425-1477 | The block guards skip nothing that needs merging. |
| OperationDataMembers.StoreVarintShows | OwbClientlibXcode/ProtoBuffer/message.pb.cc:862-1114 | Storing a varint in its member shows the value-level step, undeclared data types included. |
| OperationDataMembers.StoreFixed32Shows | OwbClientlibXcode/ProtoBuffer/message.pb.cc:862-1114 | The same for the float members. |
| OperationDataMembers.MergeShows | OwbClientlibXcode/ProtoBuffer/message.pb.cc:1425-1477 | Merging members and points merges what the accessors show. |
| OperationDataMembers.InitializedShows | OwbClientlibXcode/ProtoBuffer/message.pb.cc:1491-1513 | The bit mask and the points decide what initialization of the shown message means. |
| OperationDataMessage.OperationData.SetDataType | OwbClientlibXcode/ProtoBuffer/message.pb.h:1526-1530 | Sets the member and its has bit, nothing else. |
| OperationDataMessage.OperationData.ClearDataType | OwbClientlibXcode/ProtoBuffer/message.pb.h:1519-1522 | Back to the default, has bit clear. |
| OperationDataMessage.OperationData.SetThinkness | OwbClientlibXcode/ProtoBuffer/message.pb.h:1549-1552 | Sets the member and its has bit, nothing else. |
| OperationDataMessage.OperationData.MutablePoint | OwbClientlibXcode/ProtoBuffer/message.pb.h:1593-1597 | The point is set and the caller gets the one in its slot, fresh or as it was. |
| OperationDataMessage.OperationData.SetPointX | OwbClientlibXcode/ProtoBuffer/message.pb.h:1478-1481 | A setter of the point that mutable_...() returns writes through to the data, and to nothing else in them. |
| OperationDataMessage.OperationData.ReleasePoint | OwbClientlibXcode/ProtoBuffer/message.pb.h:1598-1603 | The point is unset and the caller owns it, well formed. |
| OperationDataMessage.OperationData.ClearPoint | OwbClientlibXcode/ProtoBuffer/message.pb.h:1586-1589 | The point is unset, everything else is as it was. |
| OperationDataMessage.OperationData.Clear | OwbClientlibXcode/ProtoBuffer/message.pb.cc:826-860 | The message is empty and every member at its default. |
| OperationDataMessage.OperationData.MergeFrom | OwbClientlibXcode/ProtoBuffer/message.pb.cc:1425-1477 | The message becomes the merge of the two. |
| OperationDataMessage.OperationData.CopyFrom | OwbClientlibXcode/ProtoBuffer/message.pb.cc:1485-1489 | The message shows what the source showed, itself included. |
| OperationDataMessage.OperationData.IsInitialized | OwbClientlibXcode/ProtoBuffer/message.pb.cc:1491-1513 | True exactly if the two required members are set and every set point is initialized. |
| OperationDataMessage.OperationData.Swap | OwbClientlibXcode/ProtoBuffer/message.pb.cc:1515-1536 | The two messages change places. |
| OperationDataMessage.OperationData.ParsePointCase | OwbClientlibXcode/ProtoBuffer/message.pb.cc:921-934 | One point field advances the message as the plain loop does, or fails with it. |
| OperationDataMessage.OperationData.Turn | OwbClientlibXcode/ProtoBuffer/message.pb.cc:862-1114 | One turn after its tag, entered from the top or by a jump: what is left to parse comes to the same outcome, or the parse is over with it. |
| OperationDataMessage.OperationData.MergePartialFromCodedStream | OwbClientlibXcode/ProtoBuffer/message.pb.cc:862-1114 | The parser with its fourteen jumps has the outcome of the value-level parse, not defined, rejected or accepted, and reaches the same message, for every kind of end. |
| OperationDataMessage.OperationData.ReadMessage | OwbClientlibXcode/ThridParty/protobuf/src/google/protobuf/wire_format_lite_inl.h:397-412 | Nested data are read from their own bytes, and the stream goes on after them. |
| OperationDataMessage.OperationData.ByteSize | OwbClientlibXcode/ProtoBuffer/message.pb.cc:1303-1411 | Visiting fields in has-bit order gives the exact length, and every point's size is cached. |
| OperationDataMessage.OperationData.SerializeWithCachedSizesToArray | OwbClientlibXcode/ProtoBuffer/message.pb.cc:1206-1301 | With sizes cached, writes the wire form in field order at the target. |
| OperationMessage.Operation.SetSerialNumber | OwbClientlibXcode/ProtoBuffer/message.pb.h:1903-1906 | Sets the member and its has bit, nothing else. |
| OperationMessage.Operation.ClearSerialNumber | OwbClientlibXcode/ProtoBuffer/message.pb.h:1896-1899 | Back to the default, has bit clear. |
| OperationMessage.Operation.MutableData | OwbClientlibXcode/ProtoBuffer/message.pb.h:1925-1929 | The data are set and the caller gets them, fresh or as they were. |
| OperationMessage.Operation.SetPointX | OwbClientlibXcode/ProtoBuffer/message.pb.h:1925-1929 | A setter of a point of the data that mutable_data() returns writes through to the operation. |
| OperationMessage.Operation.ReleaseData | OwbClientlibXcode/ProtoBuffer/message.pb.h:1930-1935 | The data are unset and the caller owns them, with nothing shared. |
| OperationMessage.Operation.ClearData | OwbClientlibXcode/ProtoBuffer/message.pb.h:1918-1921 | The data are cleared and unset. |
| OperationMessage.Operation.Clear | OwbClientlibXcode/ProtoBuffer/message.pb.cc:1606-1615 | The message is empty and its data cleared. |
| OperationMessage.Operation.MergeFrom | OwbClientlibXcode/ProtoBuffer/message.pb.cc:1750-1761 | The message becomes the merge of the two. |
| OperationMessage.Operation.CopyFrom | OwbClientlibXcode/ProtoBuffer/message.pb.cc:1769-1773 | The message shows what the source showed, itself included. |
| OperationMessage.Operation.IsInitialized | OwbClientlibXcode/ProtoBuffer/message.pb.cc:1775-1782 | True exactly if both members are set and the data are initialized. |
| OperationMessage.Operation.Swap | OwbClientlibXcode/ProtoBuffer/message.pb.cc:1784-1792 | The two messages change places and share nothing. |
| OperationMessage.Operation.MergePartialFromCodedStream | OwbClientlibXcode/ProtoBuffer/message.pb.cc:1617-1666 | The parser with its jump has the outcome of the value-level parse and reaches the same message, for every kind of end. |
| OperationMessage.Operation.ReadMessage | OwbClientlibXcode/ThridParty/protobuf/src/google/protobuf/wire_format_lite_inl.h:397-412 | A nested operation is read from its own bytes, and the stream goes on after them. |
| OperationMessage.Operation.ByteSize | OwbClientlibXcode/ProtoBuffer/message.pb.cc:1708-1736 | Returns and caches the exact length; every nested size is cached. |
| OperationMessage.Operation.SerializeWithCachedSizesToArray | OwbClientlibXcode/ProtoBuffer/message.pb.cc:1687-1706 | With sizes cached, writes the wire form at the target. |
| OperationList.Elements.Add | OwbClientlibXcode/ProtoBuffer/message.pb.h:1977-1979 | Appends one cleared element, allocated before or new. |
| OperationList.Elements.MergeFrom | OwbClientlibXcode/ProtoBuffer/message.pb.cc:2032-2041 | Appends copies of the other's elements in order. |
| OperationList.Elements.Clear | OwbClientlibXcode/ProtoBuffer/message.pb.cc:1882-1889 | Empty, with every element cleared for reuse. |
| OperationList.Elements.Read | OwbClientlibXcode/ProtoBuffer/message.pb.cc:1918-1931 | Appends the operation read from its own bytes; the element is there even if that fails. |
| OperationList.Elements.AllInitialized | OwbClientlibXcode/ProtoBuffer/message.pb.cc:2055-2062 | True exactly if every element is initialized. |
| OperationList.Elements.ByteSize | OwbClientlibXcode/ProtoBuffer/message.pb.cc:2001-2008 | The exact length of all elements, tags included, and every element's size is cached. |
| OperationList.Elements.Serialize | OwbClientlibXcode/ProtoBuffer/message.pb.cc:1976-1981 | Writes the elements in order with their cached sizes. |
| OperationsMessage.Operations.SetAvaliable | OwbClientlibXcode/ProtoBuffer/message.pb.h:1958-1962 | Sets the member and its has bit, nothing else. |
| OperationsMessage.Operations.ClearAvaliable | OwbClientlibXcode/ProtoBuffer/message.pb.h:1951-1954 | Back to the default, which is not zero, has bit clear. |
| OperationsMessage.Operations.SetPointX | OwbClientlibXcode/ProtoBuffer/message.pb.h:1971-1976 | A setter reached through mutable_operations(i), its data and one of their points changes that coordinate of that element and nothing else. |
| OperationsMessage.Operations.AddNumbered | OwbClientlibXcode/ProtoBuffer/message.pb.h:1977-1979 | A setter of what add_operations() returns writes through: one more element, with that serial number. |
| OperationsMessage.Operations.Clear | OwbClientlibXcode/ProtoBuffer/message.pb.cc:1882-1889 | The message is empty and the state at its default. |
| OperationsMessage.Operations.MergeFrom | OwbClientlibXcode/ProtoBuffer/message.pb.cc:2032-2041 | The message becomes the merge of the two. |
| OperationsMessage.Operations.CopyFrom | OwbClientlibXcode/ProtoBuffer/message.pb.cc:2049-2053 | The message shows what the source showed, itself included. |
| OperationsMessage.Operations.IsInitialized | OwbClientlibXcode/ProtoBuffer/message.pb.cc:2055-2062 | True exactly if every required member of the whole tree is set. |
| OperationsMessage.Operations.Swap | OwbClientlibXcode/ProtoBuffer/message.pb.cc:2064-2072 | The two messages change places. |
| OperationsMessage.Operations.MergePartialFromCodedStream | OwbClientlibXcode/ProtoBuffer/message.pb.cc:1891-1946 | The parser, jumping from element to element, has the outcome of the value-level parse and reaches the same message, for every kind of end. |
| OperationsMessage.Operations.ParseFromArray | OwbClientlibXcode/ThridParty/protobuf/src/google/protobuf/message_lite.cc:119-147 | Accepts exactly the arrays that the value-level parse accepts and that are initialized, and holds their parse; tells which are not defined. |
| OperationsMessage.Operations.ByteSize | OwbClientlibXcode/ProtoBuffer/message.pb.cc:1990-2018 | Returns and caches the exact length; every nested size is cached. |
| OperationsMessage.Operations.SerializeWithCachedSizesToArray | OwbClientlibXcode/ProtoBuffer/message.pb.cc:1968-1988 | With sizes cached, writes the wire form at the target. |
| OperationsMessage.Operations.SerializeToArray | OwbClientlibXcode/ThridParty/protobuf/src/google/protobuf/message_lite.cc:304-313 | Succeeds exactly if the wire form fits, and then has written it. |
| DocumentMessage.Document.Clear | OwbClientlibXcode/ProtoBuffer/message.pb.cc:2148-2164 | The guarded reset leaves every member at its default. |
| DocumentMessage.Document.MergeFrom | OwbClientlibXcode/ProtoBuffer/message.pb.cc:2342-2356 | The document becomes the merge of the two. |
| DocumentMessage.Document.CopyFrom | OwbClientlibXcode/ProtoBuffer/message.pb.cc:2364-2368 | The document shows what the source showed, itself included. |
| DocumentMessage.Document.IsInitialized | OwbClientlibXcode/ProtoBuffer/message.pb.cc:2370-2374 | True exactly if the two required members are set. |
| DocumentMessage.Document.MergePartialFromCodedStream | OwbClientlibXcode/ProtoBuffer/message.pb.cc:2166-2232 | The parser with its jumps has the outcome of the value-level parse, and reaches the same document, for every kind of end. |
| DocumentMessage.Document.ByteSize | OwbClientlibXcode/ProtoBuffer/message.pb.cc:2293-2328 | Returns and caches the exact length. |
| DocumentMessage.Document.SerializeWithCachedSizesToArray | OwbClientlibXcode/ProtoBuffer/message.pb.cc:2262-2291 | Writes the wire form at the target. |
| StreamSerializers.SerializePointToStream | OwbClientlibXcode/ProtoBuffer/message.pb.cc:602-618 | The stream gets the bytes that the array serializer writes. |
| StreamSerializers.SerializeDataToStream | OwbClientlibXcode/ProtoBuffer/message.pb.cc:1116-1204 | The same for operation data, whichever way each point goes. |
| StreamSerializers.WritePointField | OwbClientlibXcode/ThridParty/protobuf/src/google/protobuf/wire_format_lite.cc:327-340 | A nested message goes straight into the block or to the stream, with the same bytes. |
| StreamSerializers.SerializeOperationToStream | OwbClientlibXcode/ProtoBuffer/message.pb.cc:1668-1685 | The same for an operation. |
| StreamSerializers.SerializeOperationsToStream | OwbClientlibXcode/ProtoBuffer/message.pb.cc:1948-1966 | The same for a list of operations. |
| StreamSerializers.SerializeDocumentToStream | OwbClientlibXcode/ProtoBuffer/message.pb.cc:2234-2260 | The same for a document. |
| Heaps.TopIsGreatest | OwbClientlibXcode/ThridParty/RCF-2.0.0.2679/include/RCF/Heap.hpp:57-65 | In heap order no element is greater than the first. |
| Heaps.PushHeap | OwbClientlibXcode/ThridParty/RCF-2.0.0.2679/include/RCF/Heap.hpp:45-49 | Heap order with the last element included, same elements. |
| Heaps.PopHeap | OwbClientlibXcode/ThridParty/RCF-2.0.0.2679/include/RCF/Heap.hpp:67-71 | The first element is last, the others are in heap order, same elements. |
| Heaps.MakeHeap | OwbClientlibXcode/ThridParty/RCF-2.0.0.2679/include/RCF/Heap.hpp:51-55 | Heap order from any order, same elements. |
| Heaps.Heap.Add | OwbClientlibXcode/ThridParty/RCF-2.0.0.2679/include/RCF/Heap.hpp:45-49 | In heap order, with the element added. |
| Heaps.Heap.Remove | OwbClientlibXcode/ThridParty/RCF-2.0.0.2679/include/RCF/Heap.hpp:51-55 | In heap order, with every equal element gone and no other. |
| Heaps.Heap.Top | OwbClientlibXcode/ThridParty/RCF-2.0.0.2679/include/RCF/Heap.hpp:57-65 | The first element, which none is greater than. |
| Heaps.Heap.Pop | OwbClientlibXcode/ThridParty/RCF-2.0.0.2679/include/RCF/Heap.hpp:67-71 | In heap order, without one copy of the first element. |
| Heaps.Heap.SetCompare | OwbClientlibXcode/ThridParty/RCF-2.0.0.2679/include/RCF/Heap.hpp:88-96 | Reordered on demand; otherwise no element moves. |
| TimerOrder.TimerCompareStrictWeak | OwbClientlibXcode/ThridParty/RCF-2.0.0.2679/include/RCF/Heap.hpp:116-129 | The comparator meets the library's demands for every base. |
| TimerOrder.DeadlineUnique | OwbClientlibXcode/ThridParty/RCF-2.0.0.2679/include/RCF/Heap.hpp:123-124 | A 32-bit time stands for one deadline in the window after the base, and for a given one exactly if that lies in the window. |
| TimerOrder.OffsetMoves | OwbClientlibXcode/ThridParty/RCF-2.0.0.2679/include/RCF/Heap.hpp:153-158 | How each entry's distance from the base changes when the base moves. |
| TimerOrder.TopIsNearest | OwbClientlibXcode/ThridParty/RCF-2.0.0.2679/include/RCF/Heap.hpp:112-129 | The top of an ordered heap is the entry nearest to the base. |
| TimerOrder.RebaseKeepsOrder | OwbClientlibXcode/ThridParty/RCF-2.0.0.2679/include/RCF/Heap.hpp:147-160 | A rebase that moves the base keeps the order exactly when the spread bound holds. |
| TimerOrder.RebaseBreaksOrder | OwbClientlibXcode/ThridParty/RCF-2.0.0.2679/include/RCF/Heap.hpp:147-160 | Two entries and a clock for which it does not. |
| TimerOrder.SpreadOnceDue | OwbClientlibXcode/ThridParty/RCF-2.0.0.2679/include/RCF/Heap.hpp:153-156 | The bound is automatic once the top is 10 s past the old base. |
| TimerOrder.TopIsLeast | OwbClientlibXcode/ThridParty/RCF-2.0.0.2679/include/RCF/Heap.hpp:57-65 | The top stands for a least alarm of the unbounded queue. |
| TimerOrder.StepRefines | OwbClientlibXcode/ThridParty/RCF-2.0.0.2679/include/RCF/Heap.hpp:147-176 | Each change of the 32-bit heap is the same change of the unbounded queue. |
| TimerOrder.RebaseStaysLive | OwbClientlibXcode/ThridParty/RCF-2.0.0.2679/include/RCF/Heap.hpp:142-157 | A rebase keeps to the spread bound exactly if every deadline of the queue lies in the window that it moves to. |
| TimerOrder.RunRefines | OwbClientlibXcode/ThridParty/RCF-2.0.0.2679/include/RCF/Heap.hpp:131-256 | Over every run in which deadlines stay in the window, the heap is that queue, pops take least alarms, and the top is always one. |
| TimerOrder.ExpiredMeansPassed | OwbClientlibXcode/ThridParty/RCF-2.0.0.2679/src/RCF/Tools.cpp:111-117 | In one window of 2^32 ms around the clock, expired means passed. |
| TimerOrder.ExpiryWindow | OwbClientlibXcode/ThridParty/RCF-2.0.0.2679/src/RCF/Tools.cpp:111-117 | From 429496734 ms after a deadline to 3865470561 ms before it, it has expired exactly if it has passed, and the time left is what is left of it, or zero. |
| TimerOrder.RebaseMoves | OwbClientlibXcode/ThridParty/RCF-2.0.0.2679/include/RCF/Heap.hpp:142-157 | A rebase moves the base only if the clock is more than 3600000 ms after it, and then to 10000 ms before the top, or before the clock. |
| TimerOrder.MonotoneInWindow | OwbClientlibXcode/ThridParty/RCF-2.0.0.2679/src/RCF/Tools.cpp:111-117 | If all deadlines lie in it, expiry is monotone. |
| TimerOrder.DrainIsExact | OwbClientlibXcode/ThridParty/RCF-2.0.0.2679/include/RCF/Heap.hpp:206-219 | A drain that stops at an entry not expired took all the expired ones exactly when expiry is monotone. |
| TimerHeap.TimerHeap.constructor | OwbClientlibXcode/ThridParty/RCF-2.0.0.2679/include/RCF/Heap.hpp:141-145 | Empty, based 10 s before the clock or at zero. |
| TimerHeap.TimerHeap.Rebase | OwbClientlibXcode/ThridParty/RCF-2.0.0.2679/include/RCF/Heap.hpp:147-160 | The base moves by the guard, no element moves, and the heap stays ordered exactly if the spread bound held. |
| TimerHeap.TimerHeap.Add | OwbClientlibXcode/ThridParty/RCF-2.0.0.2679/include/RCF/Heap.hpp:165-170 | The step of the model, for every deadline with those 32 bits. |
| TimerHeap.TimerHeap.Remove | OwbClientlibXcode/ThridParty/RCF-2.0.0.2679/include/RCF/Heap.hpp:172-176 | The step of the model; the order need not hold before. |
| TimerHeap.TimerHeap.CompareTop | OwbClientlibXcode/ThridParty/RCF-2.0.0.2679/include/RCF/Heap.hpp:178-186 | True exactly if the entry is the top. |
| TimerHeap.TimerHeap.Clear | OwbClientlibXcode/ThridParty/RCF-2.0.0.2679/include/RCF/Heap.hpp:200-204 | Empty, same base. |
| TimerHeap.TimerHeap.PopExpiredEntry | OwbClientlibXcode/ThridParty/RCF-2.0.0.2679/include/RCF/Heap.hpp:206-219 | Pops exactly an expired top, which no entry is before. |
| TimerHeap.TimerHeap.GetExpiredEntry | OwbClientlibXcode/ThridParty/RCF-2.0.0.2679/include/RCF/Heap.hpp:221-233 | Shows the top exactly if it has expired; in an ordered heap no entry is before it. |
| TimerHeap.TimerHeap.GetNextEntryTimeoutMs | OwbClientlibXcode/ThridParty/RCF-2.0.0.2679/include/RCF/Heap.hpp:235-242 | The time until the top, or the greatest 32-bit number. |
| TimerHeap.TimerHeap.DrainExpired | OwbClientlibXcode/ThridParty/RCF-2.0.0.2679/include/RCF/Heap.hpp:206-219 | Terminates with expired entries in deadline order; they are all of them exactly when expiry is monotone. |
| ByteBuffer.ByteBuffer.Sub | OwbClientlibXcode/ThridParty/RCF-2.0.0.2679/src/RCF/ByteBuffer.cpp:185-203 | Part of a buffer lies inside it and has that part of its bytes, npos included. |
| ByteBuffer.Visit | OwbClientlibXcode/ThridParty/RCF-2.0.0.2679/include/RCF/ByteBuffer.hpp:165-197 | One turn of the loop adds what the next buffer contributes to the window, whatever the stale cursor says. |
| ByteBuffer.ForEachByteBuffer | OwbClientlibXcode/ThridParty/RCF-2.0.0.2679/include/RCF/ByteBuffer.hpp:154-200 | The pieces join to the window of the joined bytes; each lies inside a buffer of its own, in order. |
| ByteBuffer.SliceByteBuffers | OwbClientlibXcode/ThridParty/RCF-2.0.0.2679/src/RCF/ByteBuffer.cpp:363-374 | The pieces as a list. |
| ByteBuffer.LengthByteBuffers | OwbClientlibXcode/ThridParty/RCF-2.0.0.2679/src/RCF/ByteBuffer.cpp:299-307 | The length of the joined bytes. |
| ByteBuffer.WindowComposes | OwbClientlibXcode/ThridParty/RCF-2.0.0.2679/include/RCF/ByteBuffer.hpp:161-199 | A window of a window is a window. |
| ByteBuffer.WindowBytes | OwbClientlibXcode/ThridParty/RCF-2.0.0.2679/include/RCF/ByteBuffer.hpp:161-199 | Which bytes a window has, and how many. |
| ByteBuffer.FlattenAt | OwbClientlibXcode/ThridParty/RCF-2.0.0.2679/include/RCF/ByteBuffer.hpp:161-199 | The bytes of a buffer come after those of the buffers before it. |
| ByteBuffer.SliceTwice | OwbClientlibXcode/ThridParty/RCF-2.0.0.2679/src/RCF/ByteBuffer.cpp:363-374 | Slicing the slices hands out the bytes that slicing once does. |
| ByteBuffer.PartialWrites | OwbClientlibXcode/ThridParty/RCF-2.0.0.2679/include/RCF/ByteBuffer.hpp:161-199 | Advancing the offset over partial writes neither loses nor repeats a byte. |
| Marshal.EmptyEncoding | OwbClientlibXcode/ThridParty/RCF-2.0.0.2679/include/RCF/Marshal.hpp:375-384 | Skipping a parameter when the archive is empty is harmless: an empty encoding belongs to a type with one value. |
| Marshal.PointersAreWritten | OwbClientlibXcode/ThridParty/RCF-2.0.0.2679/include/RCF/Marshal.hpp:767-775 | A pointer is never written as nothing. |
| Marshal.InRoundTrip | OwbClientlibXcode/ThridParty/RCF-2.0.0.2679/include/RCF/Marshal.hpp:517-567 | One in-parameter is read in the mode it was written in, for every kind and version, or in the other where the modes are interchangeable. |
| Marshal.InRoundTripIff | OwbClientlibXcode/ThridParty/RCF-2.0.0.2679/include/RCF/Marshal.hpp:517-567 | Every argument of an in-parameter is read back exactly unless its type is pooled, its kind a reference and the version above 8, and the encodings of pointers and values differ for the reader. |
| Marshal.OutRoundTrip | OwbClientlibXcode/ThridParty/RCF-2.0.0.2679/include/RCF/Marshal.hpp:663-675 | One out-parameter or return value is read back. |
| Marshal.RequestRoundTrip | OwbClientlibXcode/ThridParty/RCF-2.0.0.2679/include/RCF/Marshal.hpp:1336-1353 | The server reads exactly the in-parameters written, in position; a client that knows fewer leaves the rest default or null. |
| Marshal.RequestToOlder | OwbClientlibXcode/ThridParty/RCF-2.0.0.2679/include/RCF/Marshal.hpp:1553-1570 | A server that knows fewer parameters reads those it knows and leaves the bytes of the others. |
| Marshal.ReplyRoundTrip | OwbClientlibXcode/ThridParty/RCF-2.0.0.2679/include/RCF/Marshal.hpp:1572-1590 | The server writes all its out-parameters; the client reads exactly those it knows, and its other arguments are unchanged. |
| Marshal.ReplyFromOlder | OwbClientlibXcode/ThridParty/RCF-2.0.0.2679/include/RCF/Marshal.hpp:1316-1334 | A client that knows more out-parameters than the server keeps its own objects for the missing ones. |
| Marshal.CallRoundTrip | OwbClientlibXcode/ThridParty/RCF-2.0.0.2679/include/RCF/Marshal.hpp:1316-1353 | Both directions of a call by a client that knows a prefix of the server's parameters, for every signature and version. |
| Marshal.CallToOlder | OwbClientlibXcode/ThridParty/RCF-2.0.0.2679/include/RCF/Marshal.hpp:1316-1353 | Both directions of a call to a server that knows a prefix of the client's parameters. |
| Marshal.CallByKind | OwbClientlibXcode/ThridParty/RCF-2.0.0.2679/include/RCF/Marshal.hpp:1316-1353 | After a call the server has what the client sent for T, T *, const T & and T &, and a default object or null for what it did not send; the client has the server's return value, T & and Out<T &>, and everything else is unchanged. |
| Marshal.CallToOlderByKind | OwbClientlibXcode/ThridParty/RCF-2.0.0.2679/include/RCF/Marshal.hpp:1553-1590 | The same where the server knows fewer parameters than the client. |
| Marshal.NullReference | OwbClientlibXcode/ThridParty/RCF-2.0.0.2679/include/RCF/Marshal.hpp:517-567 | A null pointer for a reference is taken before version 8 and an error from version 9 on, unless the object comes from a pool. |
| Parameters.ClientParameters.Write | OwbClientlibXcode/ThridParty/RCF-2.0.0.2679/include/RCF/Marshal.hpp:1336-1353 | The archive gets the in-parameters in order. |
| Parameters.ClientParameters.Read | OwbClientlibXcode/ThridParty/RCF-2.0.0.2679/include/RCF/Marshal.hpp:1316-1334 | The out-parameters are read in order, or the read fails. |
| Parameters.ServerParameters.Read | OwbClientlibXcode/ThridParty/RCF-2.0.0.2679/include/RCF/Marshal.hpp:1553-1570 | The in-parameters are read in order, or the read fails. |
| Parameters.ServerParameters.Write | OwbClientlibXcode/ThridParty/RCF-2.0.0.2679/include/RCF/Marshal.hpp:1572-1590 | The archive gets the return value and out-parameters in order. |
| Candidates.Candidates.Find | OwbClientlibXcode/ThridParty/RCF-2.0.0.2679/include/RCF/Marshal.hpp:1203-1215 | The future listed at the address, and never a second one. |
| Candidates.Candidates.Erase | OwbClientlibXcode/ThridParty/RCF-2.0.0.2679/include/RCF/Marshal.hpp:1217-1228 | Takes the address out; the failing assertion is not reached for a listed one. |
| Candidates.Candidates.Add | OwbClientlibXcode/ThridParty/RCF-2.0.0.2679/include/RCF/Marshal.hpp:1230-1241 | Lists the future at the address, in place of another. |
| Candidates.Candidates.EnrolFutures | OwbClientlibXcode/ThridParty/RCF-2.0.0.2679/include/RCF/Marshal.hpp:1355-1399 | Takes out the futures of the arguments in order, never erasing an unlisted address. |
| Candidates.Candidates.Unregister | OwbClientlibXcode/ThridParty/RCF-2.0.0.2679/include/RCF/Future.hpp:216-225 | The address is not listed any more, listed before or not. |
| Candidates.EnrolledLeaves | OwbClientlibXcode/ThridParty/RCF-2.0.0.2679/include/RCF/Marshal.hpp:1377-1396 | Exactly the arguments' addresses are taken out. |
| Candidates.EnrolledTakes | OwbClientlibXcode/ThridParty/RCF-2.0.0.2679/include/RCF/Marshal.hpp:1377-1396 | The futures handed over are exactly those of listed arguments. |
| Candidates.EnrolledCounts | OwbClientlibXcode/ThridParty/RCF-2.0.0.2679/include/RCF/Marshal.hpp:1377-1396 | As many futures as addresses taken out. |
| Future.FutureImpl.Make | OwbClientlibXcode/ThridParty/RCF-2.0.0.2679/include/RCF/Future.hpp:267-285 | A new one owes its call. |
| Future.FutureImpl.Copy | OwbClientlibXcode/ThridParty/RCF-2.0.0.2679/include/RCF/Future.hpp:287-297 | The copy takes over the duty, if there is one. |
| Future.FutureImpl.Assign | OwbClientlibXcode/ThridParty/RCF-2.0.0.2679/include/RCF/Future.hpp:299-311 | The duty is taken over and the old one forgotten, by self-assignment too. |
| Future.FutureImpl.Convert | OwbClientlibXcode/ThridParty/RCF-2.0.0.2679/include/RCF/Future.hpp:318-326 | The duty is given up and the call started, in whatever way it ends. |
| Future.FutureImpl.AssignTo | OwbClientlibXcode/ThridParty/RCF-2.0.0.2679/include/RCF/Future.hpp:328-335 | The duty is given up, the call is made an asynchronous one whose result goes to the future, the future is no longer listed at its old address, and the call is started. |
| Future.FutureImpl.Destroy | OwbClientlibXcode/ThridParty/RCF-2.0.0.2679/include/RCF/Future.hpp:338-349 | Starts the call if it is still owed. |
| Future.StepBalance | OwbClientlibXcode/ThridParty/RCF-2.0.0.2679/include/RCF/Future.hpp:267-349 | The exact change of open duties plus started calls, for every step and call. |
| Future.ConservesIffFair | OwbClientlibXcode/ThridParty/RCF-2.0.0.2679/include/RCF/Future.hpp:267-349 | A step conserves every call exactly if it is not a conversion of a non-owner or an assignment to an owner. |
| Future.CallsConserved | OwbClientlibXcode/ThridParty/RCF-2.0.0.2679/include/RCF/Future.hpp:267-349 | Over every fair run, open duties plus started calls are the calls made. |
| Future.StartedOnce | OwbClientlibXcode/ThridParty/RCF-2.0.0.2679/include/RCF/Future.hpp:267-349 | Once all copies are gone, each call has been started once for each time it was made. |
| Future.UnfairSteps | OwbClientlibXcode/ThridParty/RCF-2.0.0.2679/include/RCF/Future.hpp:299-327 | An assignment that loses a call and a conversion that repeats one. |
| Future.ClientStub.Call | OwbClientlibXcode/ThridParty/RCF-2.0.0.2679/include/RCF/Future.hpp:353-458 | A second call is refused unless it stays in the process; a synchronous one drops the flag on every way out, an asynchronous one keeps it until it is over, at once if it completes or fails before call() returns; only the caller of a synchronous or in-process call gets the exception. |
| Future.RefusedIffOpen | OwbClientlibXcode/ThridParty/RCF-2.0.0.2679/include/RCF/Future.hpp:232-261 | Over any run of calls and notifications a call is refused exactly if it goes over the network while an asynchronous one that has not ended is open. |
| Future.SynchronousCalls | OwbClientlibXcode/ThridParty/RCF-2.0.0.2679/include/RCF/Future.hpp:248-255 | After any number of synchronous calls, however they ended, the next one is not refused. |
| Future.ClientStub.ScheduleAmiNotification | OwbClientlibXcode/ThridParty/RCF-2.0.0.2679/src/RCF/Marshal.cpp:714-733 | The asynchronous call is over. |
| Future.State.Dereference | OwbClientlibXcode/ThridParty/RCF-2.0.0.2679/include/RCF/Future.hpp:144-172 | Once the call is ready the future is listed at its address, unless the call has failed: then nothing is listed. |
| Future.State.SetClientStub | OwbClientlibXcode/ThridParty/RCF-2.0.0.2679/include/RCF/Future.hpp:179-186 | The old address is not listed, and no candidate dangles. |
| Future.State.Destroy | OwbClientlibXcode/ThridParty/RCF-2.0.0.2679/include/RCF/Future.hpp:137-142 | No candidate is the destroyed future. |
| Future.EnrolledAreLive | OwbClientlibXcode/ThridParty/RCF-2.0.0.2679/include/RCF/Marshal.hpp:1377-1396 | Every future enrolled is live and waits at an argument; every such candidate is enrolled. |

## Left out

- Other messages: User, UserList, HeartBeat and its reply, JoinMeetingReturn, MeetingServerInfo and DocumentList have the same generated shape and would only add easy members.
- Descriptors, reflection, default instances, shutdown, and UTF-8 verification, which only logs.
- Has bits: each is kept beside its member instead of in one word; a block guard looks at its members' bits.
- The six points of OperationData are a table by field number instead of six pointers, so that one method serves all; the order in which they are visited is the source's.
- Setters: SetColor, SetAngle, SetA, SetB, SetFill, SetAlpha and SetIsStart have the shape of SetThinkness.
- String members of a document are values; sharing the empty default string is not visible through the accessors.
- Refills: the input stream works on one flat array, so reading a varint across blocks and the unrolled in-buffer varint readers are not distinguished; SetTotalBytesLimit, which no caller here uses, is not modelled.
- OperationsMessage.Operations.MergePartialFromCodedStream: what a message holds after a rejected parse is not stated, only that it is still well formed; the same for the other messages.
- OperationsMessage.Operations.ParseFromArray: the logging of missing fields and of the total limit is not modelled.
- CodedStream.CodedInputStream.PushLimit: a first submessage beyond the total limit makes the library's buffer end before it begins; the model stops there, with `broken` set, and says nothing of what follows.
- CodedOutput.CodedOutputStream.HasDirectBuffer: whether a block has room is left open, so the result covers every block layout; write errors of the underlying stream are not modelled.
- Locks: every locked method of TimerHeap and Candidates is one step.
- ByteBuffer.ForEachByteBuffer: the functor is the one that appends to a list, and the buffers' total fits in size_t.
- ByteBuffer.ByteBuffer.Sub: storage is a value; which pointer keeps it alive is not modelled.
- Marshal.InRoundTripIff: whether the SF encodings of a pooled type's pointers and values are interchangeable is a parameter.
- Marshal.CallRoundTrip: the codecs are parameters that read back what they wrote; serializeOverride and deserializeOverride are taken to be part of them. Signatures may have any length, not only fifteen.
- Future.State.Dereference: the wait for the call and its time-out are outside the model; what the call ended in is a parameter.
- Future.FutureImpl.Convert: what the call returns is not modelled; the transport, and whether and when the call completes or fails, are a parameter.
- Future.ClientStub.Call: retries, file transfer and disconnecting are not modelled.
- Transports, filters, endpoints, HTTP, JSON, the dispatch macros, and the Objective-C headers, which declare no behaviour.
