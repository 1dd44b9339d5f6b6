# A verified model of the AMQP 1.0 client library

This project models the cores of azure-uamqp-c, an AMQP 1.0 client in C (AMQP 1.0 is also ISO/IEC 19464), and
proves what they are for. `dafny verify dfyconfig.toml` checks all of it.

Three parts, from the wire upwards.

**The codec stack.** `AmqpValues`, `AmqpEncoding` and `DecoderSpec` say what a value is, which octets the encoder
writes for it, and what the push decoder does with one octet. `WireFormat` says which octets stand for which value, in
all forms and without the encoder or the decoder; `WireEncoding` and `WireDecoding` prove that the one writes and the
other reads just that, so `RoundTrip` follows in a few lines. `Chunking`, `FieldRuns`, `Nesting`, `RoundTripSpec`,
`ValueStream` and `SizePrefix` prove that cutting the input never matters, that the decoder ends on every input within
its limits, what becomes of streams of values, and when size fields are right. `ValueEncoder` and `ValueDecoder` (with `DecoderTurns`) are the objects and loops of the C code, proved to
do what those specifications say. `ValueEquality` is the comparison of values and the maps built on it.
`FrameDecoding`, `FrameEncoding`, `FrameLayout` and `FrameCodec` do the same for frames, `AmqpFraming`, `Performatives`
and `AmqpFrameCodec` for the layer that tells a performative from its payload, up to a round trip through all three
layers; `NullArrays` says what happens to performatives with fields that do not come back.

**Links.** `LinkSpec` says what each event does to a link; `Link` is the object. `LinkAttaching` tells from what was sent
and received when a link is attached, `LinkDeliveries` accounts for every delivery, `LinkOutcomes` says what the caller
of each is told, `LinkReassembly` puts multi-frame deliveries together, and `LinkCredit` joins a sender and a receiver by
two in-order queues and proves credit safety and the absence of starvation over whole runs.

**Connections and management.** `ConnectionSpec`, `Connection`, `Handshake`, `OpenAndClose`, `IdleDeadlines` and
`Endpoints` cover the connection's state machine, its deadlines and its channels; `ManagementSpec`, `Management`,
`ManagementOperations`, `ManagementOutcomes` and `ManagementOpening` the matching of requests and responses, and the
opening of a management endpoint.

Each stateful component has two forms. The specification is a function on values, one event at a time, with theorems
about whole runs. The class has the fields and loops of the C object, and each of its methods is proved to change the
state, and to hand out what it hands out, as the specification says.

What the C code does is kept even where it is surprising. The model proves the surprises too: empty top-level values
that are reported twice, arrays of nulls that leave an octet behind, array size fields that are one too small, frames
of unsubscribed types that lose the rest of the stream, a frame with an extended header and no body that waits for
another octet, performatives that continue in the next frame, links that accept nothing after a detach, settled
dispositions that forget a delivery, a failed OPEN that is taken for sent, empty frames after a CLOSE, management
endpoints that reopen too early.
For each it proves when exactly the code does what one would expect.

Where the repository's requirements and its code disagree the model follows the code. Two instances: every complete
frame should be indicated (devdoc/frame_codec_requirements.md, line 106), but one with an extended header and no body
is only when another octet arrives (`FrameDecoding.RunNoBody`, `FrameEncoding.ReadBackEvents`); a failed send of the OPEN should end the connection
(requirement 01_206 at src/connection.c:422), but its state is then set to OPEN_SENT
(`Handshake.OpenTakenExactlyWhen`).

## Model

| member | source | states |
|---|---|---|
| `DecoderSpec.Feed` | src/amqpvalue.c:4947-7060 | the decoding loop ends on every octet string; it keeps the invariant, leaves octets over only when the decoder is done, and an inner decoder never calls back |
| `DecoderTurns.FeedSuffix` | src/amqpvalue.c:7053-7056 | what a decoder leaves over is the end of what it was given, so the octets used are counted by subtraction |
| `DecoderSpec.ConstructorKeepsInvariant` | src/amqpvalue.c:4971-5420 | a constructor octet is always used, never called back by an inner decoder, and completes a value at once exactly for the zero-width forms |
| `DecoderSpec.AbsorbKeepsInvariant` | src/amqpvalue.c:6698-6780 | taking in the value of an inner decoder keeps indexes below counts and lowers the slack, also when the octet is given back |
| `DecoderSpec.IterateKeepsInvariant` | src/amqpvalue.c:4962-7051 | every turn keeps item indexes below counts, counts and depth within their limits, and a turn that uses no octet lowers the slack: the lexicographic termination measure |
| `Chunking.FeedSplit` | src/amqpvalue.c:4962-7051 | decoding a then b is decoding a followed by b: same callbacks, same end state, one fails exactly when the other does, at every depth |
| `Chunking.ChunkingIsIrrelevant` | src/amqpvalue.c:4962-7051 | however the input is cut, the decoder makes the same callbacks, reaches the same state or fails alike |
| `Chunking.FeedInner` | src/amqpvalue.c:5441-5519 | octets given to an outer decoder are octets given to its inner decoder until that one is done |
| `FieldRuns.FeedFixed` | src/amqpvalue.c:5523-5834 | a fixed-width field is read as the big-endian number it stands for |
| `FieldRuns.FeedLength` | src/amqpvalue.c:5928-5970 | a length field of 1 or 4 octets, with the allocation limit and the empty value at its end |
| `FieldRuns.FeedContent` | src/amqpvalue.c:5972-6003 | the content of a binary, string or symbol is gathered whole |
| `FieldRuns.FeedCount` | src/amqpvalue.c:6350-6462 | a count field with its limits: list and array items, and twice the pairs of a map |
| `WireFormat.ByPosition` | src/amqpvalue.c:5584-5643 | a field of 1, 2, 4 or 8 octets stands for the sum of its octets weighted by position, most significant first: reading gives that number and writing that number gives the field |
| `WireDecoding.DecodeFixed` | src/amqpvalue.c:5523-5834 | behind the constructor of a fixed-width form the decoder takes exactly the octets of its width, and the number by position decides the value |
| `WireDecoding.DecodeMeasured` | src/amqpvalue.c:5863-6309 | a binary, string or symbol, behind a length of 1 or 4 octets, is read exactly when it is shorter than 100 MB |
| `WireDecoding.DecodeList` | src/amqpvalue.c:6311-6534 | a list in either form is read exactly when count, depth and items are within the limits, whatever its size field says |
| `WireDecoding.DecodeMap` | src/amqpvalue.c:6535-6782 | a map in either form is read pair by pair under the same limits |
| `WireDecoding.DecodeElements` | src/amqpvalue.c:6886-7037 | array items are read one after the other from the constructor they share |
| `WireDecoding.DecodeArrayForm` | src/amqpvalue.c:6783-7040 | an array in either form, with items of any form, is read exactly when count, depth and items are within the limits |
| `WireDecoding.DecodeDescribed` | src/amqpvalue.c:5431-5522 | descriptor and value are read |
| `WireDecoding.DecodeDenoted` | src/amqpvalue.c:4971-7040 | for the table of constructor octets written out in `WireFormat.Denotes`: octets in any of the forms of a value are decoded to it, and nothing behind them is used, exactly when it is within the limits 128, 65536 and 104857600; otherwise the decoder fails |
| `WireDecoding.UnknownConstructor` | src/amqpvalue.c:4998-5002 | every octet that is not in that table is refused |
| `WireDecoding.BadBool` | src/amqpvalue.c:5523-5548 | a boolean octet above 1 is refused |
| `WireDecoding.TooMuch` | src/amqpvalue.c:5954-6460 | a length of 100 MB or a count above 65536 is refused at once, whatever follows |
| `WireDecoding.KeyWithoutValue` | src/amqpvalue.c:6692-6704 | a map of one key is refused when the key comes |
| `WireDecoding.OddCount` | src/amqpvalue.c:6595-6650 | an odd count of a map with more than one key is read like the even one below it |
| `WireDecoding.TooDeep` | src/amqpvalue.c:4901-4905 | at depth 128 neither a descriptor nor an item is read |
| `WireEncoding.DataDenotes` | src/amqpvalue.c:4514-4747 | constructor and data of a value, in the short and in the full form, are one of its forms in the table |
| `WireEncoding.EncodedDenotes` | src/amqpvalue.c:4386-4512 | what is written for any encodable, regular value at any depth is one of its forms in the table |
| `WireEncoding.FormChosen` | src/amqpvalue.c:2605-4366 | the first octet written, for every type and size of value: always the shortest form |
| `WireEncoding.ItemFormChosen` | src/amqpvalue.c:4514-4747 | the constructor octet array items share: always the full form |
| `WireEncoding.EncodableExactlyWhen` | src/amqpvalue.c:4386-4512 | all values can be encoded but chars, arrays of described values, compound values of 4 GB, and what contains them |
| `RoundTrip.DecodeEncoded` | src/amqpvalue.c:4386-4512 | for every encodable, regular value at any depth: the decoder gives the value back and leaves what follows exactly when the value is within the limits, and fails otherwise |
| `ValueStream.OutermostFollows` | src/amqpvalue.c:4937-4945 | the outermost decoder does what an inner one does, calls back instead of finishing, and starts again |
| `ValueStream.FeedEmpty` | src/amqpvalue.c:5872-5880 | after an empty binary, string or symbol the outermost decoder stays in its data state and calls back again when another octet comes |
| `ValueStream.StreamComesBack` | src/amqpvalue.c:4947-7060 | the exact condition for a stream to come back: every value within the limits, and none empty but the last |
| `ValueStream.StreamRoundTrip` | src/amqpvalue.c:4386-7060 | concatenated encodings of v1..vn in any chunks call back exactly v1..vn in order, and end ready for a new constructor, under that exact condition |
| `ValueStream.NullArrayLeavesConstructor` | src/amqpvalue.c:6967-6994 | an array of two or more nulls leaves its constructor octet behind |
| `ValueStream.NullArrayComesBackTwice` | src/amqpvalue.c:6967-6994 | as a top-level value such an array is followed by a null nobody sent |
| `ValueStream.NullArrayRoundTrip` | src/amqpvalue.c:6967-6994 | an array of n > 0 nulls comes back alone if and only if n is 1 |
| `ValueStream.ReachableBounds` | src/amqpvalue.c:4901-4905 | after any octets no decoder in the chain is deeper than 128, no item index reaches its count, no count passes 65536 |
| `DecoderTurns.FeedCopy` | src/amqpvalue.c:5972-5990 | copying k octets at once is k single turns |
| `DecoderTurns.NestedRun` | src/amqpvalue.c:6464-6530 | handing many octets to an inner decoder and then taking in its value is what the single turns do, also when an octet is given back |
| `ValueDecoder.InternalDecoder.constructor` | src/amqpvalue.c:4897-4935 | a new decoder waits for a constructor octet |
| `ValueDecoder.InternalDecoder.ConstructorOctet` | src/amqpvalue.c:4971-5420 | the choice of type, or of failure, for every constructor octet |
| `ValueDecoder.InternalDecoder.FixedOctet` | src/amqpvalue.c:5523-5834 | one octet of a fixed-width value |
| `ValueDecoder.InternalDecoder.LengthOctet` | src/amqpvalue.c:5928-5970 | one octet of a length field, with the allocation limit |
| `ValueDecoder.InternalDecoder.CountOctet` | src/amqpvalue.c:6350-6462 | one octet of a count field, with the item limits |
| `ValueDecoder.InternalDecoder.ContentOctets` | src/amqpvalue.c:5972-6003 | as much content as is there, copied at once, is what single octets give |
| `ValueDecoder.InternalDecoder.ListItemDone` | src/amqpvalue.c:6507-6530 | a finished list item; the index stays below the count |
| `ValueDecoder.InternalDecoder.MapItemDone` | src/amqpvalue.c:6698-6780 | a finished key or value |
| `ValueDecoder.InternalDecoder.ArrayItemDone` | src/amqpvalue.c:6967-7037 | a finished array item: the next item starts from the shared constructor, a zero-width item gives its octet back |
| `ValueDecoder.InternalDecoder.DescribedPartDone` | src/amqpvalue.c:5455-5519 | a finished descriptor, or the finished value |
| `ValueDecoder.InternalDecoder.CreateInner` | src/amqpvalue.c:4901-4913 | an inner decoder is created except beyond depth 128 or beyond the last pair of a map |
| `ValueDecoder.InternalDecoder.RunInner` | src/amqpvalue.c:6464-6530 | one call of the inner decoder, which may take any number of octets |
| `ValueDecoder.InternalDecoder.FieldsTellState` | src/amqpvalue.c:5422-5431 | the constructor octet and the step fields tell which state the decoder is in |
| `ValueDecoder.InternalDecoder.Turn` | src/amqpvalue.c:4962-7051 | one turn of the loop, taking many octets at once, advances the octet-by-octet run |
| `ValueDecoder.InternalDecoder.DecodeBytes` | src/amqpvalue.c:4947-7060 | the chain of decoder objects refines the octet-by-octet specification on every input: same verdict, state, octets used and callbacks |
| `ValueDecoder.AmqpValueDecoder.DecodeBytes` | src/amqpvalue.c:7128-7161 | the public call refuses an empty buffer and otherwise does what the specification does |
| `SizePrefix.MeasuredIsBody` | src/amqpvalue.c:4193-4242 | the size computed beforehand is the size of what is written afterwards, or one less, exactly for arrays whose items take an octet or none |
| `SizePrefix.SizeFieldIsExact` | src/amqpvalue.c:3742-4366 | for every encodable list, map and array, in the 8-bit and the 32-bit form: the size field is the number of octets after it if and only if array items take more octets than there are items |
| `SizePrefix.EncodedSize` | src/amqpvalue.c:3742-4366 | in the octets of any encoded list, map or array the size field is the number of octets after it, or exactly one less, for arrays whose items take no more octets than there are items |
| `SizePrefix.ArraySizeFieldCanBeWrong` | src/amqpvalue.c:4233-4237 | an array of booleans with a size field that is one too small |
| `ValueEncoder.EncoderOutput.OutputBytes` | src/amqp_frame_codec.c:133-139 | octets are appended behind those already in the buffer, which must have room |
| `ValueEncoder.EncodeNumber` | src/amqpvalue.c:2605-2645 | every number is written octet by octet, most significant first |
| `ValueEncoder.EncodeText` | src/amqpvalue.c:3534-3576 | a string is written up to its first NUL, after its length |
| `ValueEncoder.GetEncodedSize` | src/amqpvalue.c:4761-4780 | the counting run succeeds exactly for encodable values and gives the number of octets the writing run hands over |
| `ValueEncoder.GetEncodedListSize` | src/amqpvalue.c:3742-3786 | the summed size of the items, or failure when an item cannot be encoded or the 32-bit sum would wrap |
| `ValueEncoder.GetEncodedMapSize` | src/amqpvalue.c:3965-4024 | the summed size of keys and values, or failure |
| `ValueEncoder.GetEncodedArraySize` | src/amqpvalue.c:4193-4242 | the summed size of the items and, if counted, their constructor, or failure |
| `ValueEncoder.EncodeListValue` | src/amqpvalue.c:3788-3857 | size, count and all items of a list are written |
| `ValueEncoder.EncodeMapValue` | src/amqpvalue.c:4026-4101 | size, count and all pairs of a map are written |
| `ValueEncoder.EncodeArrayValue` | src/amqpvalue.c:4244-4317 | size, count and all items of an array are written, the constructor once |
| `ValueEncoder.EncodeList` | src/amqpvalue.c:3859-3925 | the smallest form is chosen from the measured size; nothing is written when measuring fails |
| `ValueEncoder.EncodeMap` | src/amqpvalue.c:4103-4153 | the smallest form is chosen from the measured size; nothing is written when measuring fails |
| `ValueEncoder.EncodeArray` | src/amqpvalue.c:4319-4366 | the smallest form is chosen from the measured size; nothing is written when measuring fails |
| `ValueEncoder.EncodeArrayItem` | src/amqpvalue.c:4514-4747 | an array item is written in its full form; described items and chars are refused |
| `ValueEncoder.EncodeValue` | src/amqpvalue.c:4386-4512 | the encoder succeeds exactly for encodable values and hands over exactly the specified octets, also when it fails half way |
| `ValueEncoder.EncodeToNewBuffer` | src/amqp_frame_codec.c:262-299 | a buffer allocated from the counting run has room for every octet of the writing run and ends exactly full |
| `ValueEquality.EqualExactlyWhen` | src/amqpvalue.c:2028-2239 | two values are equal if and only if both can be compared and they have the same content: text up to its first NUL, numbers with one zero, item by item at every depth |
| `ValueEquality.Symmetric` | src/amqpvalue.c:2028-2239 | the comparison is symmetric |
| `ValueEquality.Transitive` | src/amqpvalue.c:2028-2239 | the comparison is transitive |
| `ValueEquality.Reflexive` | src/amqpvalue.c:2062-2064 | a value is equal to itself if and only if no part of it is described, composite or not a number |
| `ValueEquality.SetThenGet` | src/amqpvalue.c:1550-1704 | what is set in a map is found again if and only if the key can be compared |
| `ValueEquality.SetKeepsOthers` | src/amqpvalue.c:1587-1605 | setting one key leaves what is found under unequal keys |
| `ValueEquality.SetKeepsKeysDistinct` | src/amqpvalue.c:1590-1645 | no two keys of a map become equal; the one equal key keeps its place and gets the value, or a pair is added at the end |
| `ValueEquality.AmqpMap.SetMapValue` | src/amqpvalue.c:1550-1653 | the first equal key gets the value, or a pair is appended |
| `ValueEquality.AmqpMap.GetMapValue` | src/amqpvalue.c:1655-1704 | the value of the first equal key |
| `ValueEquality.AmqpList.SetListItemCount` | src/amqpvalue.c:1257-1351 | a list is cut, or filled up with nulls |
| `ValueEquality.AmqpList.SetListItem` | src/amqpvalue.c:1388-1489 | one place is set; places that did not exist before it hold null |
| `FrameDecoding.RunFramesSplit` | src/frame_codec.c:199-446 | frames decoded from a then b are those decoded from a followed by b |
| `FrameDecoding.FrameChunkingIsIrrelevant` | src/frame_codec.c:199-446 | however the input is cut, the same frames are delivered and the same verdict is reached |
| `FrameDecoding.StuckForever` | src/frame_codec.c:341-356 | in error, with DOFF past the end of the frame, or for an unsubscribed type the decoder never delivers again; exactly when its calls fail |
| `FrameDecoding.FailureIsStuck` | src/frame_codec.c:203-209 | a call that fails leaves the decoder stuck |
| `FrameDecoding.UnsubscribedFrameExactly` | src/frame_codec.c:274-415 | what a frame of an unsubscribed type leads to, for every size, DOFF and whatever follows: DOFF * 4 - 10 octets are skipped, then a frame of 8 octets leads back to the size field and any other to a body without a buffer; DOFF 2 swallows everything |
| `FrameDecoding.ReceivesAfterUnsubscribed` | src/frame_codec.c:362-397 | behind such a frame another one can be delivered, or anything reported, if and only if its size is 8 and its DOFF above 2 |
| `FrameDecoding.SwallowsAfterUnsubscribed` | src/frame_codec.c:286-291 | whatever follows is accepted without an error or a frame, for ever, if and only if its DOFF is 2 |
| `FrameDecoding.RunFramesKeeps` | src/frame_codec.c:219-443 | on any octets: sizes within the limit, copies within size - 6 octets, DOFF within the frame in the body state, and only subscribed, complete frames in order are delivered |
| `FrameDecoding.EveryOctetAccounted` | src/frame_codec.c:199-446 | on any stream without faulty or unsubscribed frames every octet is in a delivered frame or in the one being received: decoding inverts the frame layout |
| `FrameDecoding.TooLong` | src/frame_codec.c:219-231 | a frame longer than the limit is reported once and nothing is received after it |
| `FrameDecoding.RunNoBody` | src/frame_codec.c:400-443 | a frame with an extended header and no body is delivered when the next octet arrives |
| `FrameDecoding.ReadFrame` | src/frame_codec.c:199-446 | the octets of one frame give its type, type-specific octets and body |
| `FrameEncoding.Padding` | src/frame_codec.c:608-615 | for type-specific sizes up to 1014: 0 to 3 zero padding octets, a DOFF that fits its octet, a size that is the length of the frame |
| `FrameEncoding.ReadBackEvents` | src/frame_codec.c:371-443 | all frames of a stream arrive exactly when the last one has a body or no extended header; otherwise all but the last |
| `FrameEncoding.FrameRoundTrip` | src/frame_codec.c:579-718 | frames of any stream, in any chunks, come back with type, padded type-specific octets and joined payloads |
| `FrameCodecs.FrameCodec.SetMaxFrameSize` | src/frame_codec.c:137-171 | when a new limit is accepted, and that it never falls below the frame being received |
| `FrameCodecs.FrameCodec.SizeOctet` | src/frame_codec.c:212-244 | one octet of the size field and the check at its end |
| `FrameCodecs.FrameCodec.FrameTypeOctet` | src/frame_codec.c:274-331 | the buffer of a frame is allocated for a subscribed type; for others the position is not reset |
| `FrameCodecs.FrameCodec.TypeSpecificOctets` | src/frame_codec.c:333-397 | type-specific octets are copied within the buffer or refused; the header-only frame is delivered |
| `FrameCodecs.FrameCodec.SkippedOctets` | src/frame_codec.c:362-397 | octets of an unsubscribed frame are skipped, too few or without end |
| `FrameCodecs.FrameCodec.BodyOctets` | src/frame_codec.c:400-443 | body octets are copied behind the type-specific ones and the complete frame is delivered |
| `FrameCodecs.FrameCodec.ReceiveBytes` | src/frame_codec.c:180-450 | the buffer-copying loop refines the octet-by-octet decoder: same events, same verdict, same state |
| `FrameCodecs.FrameCodec.WriteHeader` | src/frame_codec.c:668-683 | size, DOFF and type in front of a frame |
| `FrameCodecs.FrameCodec.EncodeFrame` | src/frame_codec.c:579-718 | which frames are accepted, and that the buffer is filled from front to back and ends exactly full with the frame layout |
| `FrameLayout.FrameByPosition` | src/frame_codec.c:199-446 | a frame that is there whole is delivered with the type in octet 5, the octets from 6 to 4 times octet 4, and the rest up to the size in octets 0 to 3; only an extended header without a body waits for another octet |
| `FrameLayout.FaultySize` | src/frame_codec.c:219-231 | a size below 8 or above the limit is reported once, whatever follows |
| `FrameLayout.FaultyOffset` | src/frame_codec.c:250-262 | so is a data offset below 2 |
| `FrameLayout.OffsetPastEnd` | src/frame_codec.c:333-356 | an offset past the end of the frame is never reported, but nothing is delivered any more |
| `FrameLayout.SendableExactlyWhen` | src/frame_codec.c:579-660 | a frame is accepted if and only if it has up to 1014 type-specific octets, no empty payload, and no more octets than the limit |
| `FrameLayout.EncodedByPosition` | src/frame_codec.c:579-718 | what is sent for a frame, octet by octet: size, offset, type, type-specific octets, zeros up to a multiple of 4, payloads |
| `Performatives.DeliveredExactlyWhen` | src/amqp_frame_codec.c:36-131 | a body that begins with a value, in any of its forms, is delivered with this value and the rest as payload if and only if the value is within the limits, is described, and its descriptor is a ulong that is one of the nine numbers 0x10 to 0x18; otherwise the error callback is all there is, for ever |
| `Performatives.AnotherValueFails` | src/amqp_frame_codec.c:42-51 | the first value called back decides: anything but a performative fails the body |
| `Performatives.AcceptedExactlyWhen` | src/amqp_frame_codec.c:221-336 | a message is accepted if and only if its performative is one of the nine and can be encoded, no payload is empty, and the frame is within the limit |
| `Performatives.MessageByPosition` | src/amqp_frame_codec.c:249-372 | what is sent for a message: size, offset 2, type 0, the channel in octets 6 and 7, the performative and the payloads |
| `AmqpFraming.StartMeansCalled` | src/amqpvalue.c:4937-4945 | the outermost decoder is back at its start only after a callback |
| `AmqpFraming.PayloadStartsAfter` | src/amqp_frame_codec.c:95-131 | feeding the body octet by octet stops exactly at the end of the performative: the rest is the payload |
| `AmqpFraming.PerformativeGoesOn` | src/amqp_frame_codec.c:97-125 | a body that ends inside the performative is reported without one, and the next body is read as its rest |
| `AmqpFraming.WithoutPerformativeExactlyWhen` | src/amqp_frame_codec.c:95-125 | a body is reported without a performative if and only if its octets make the value decoder call back nothing |
| `AmqpFraming.PerformativeDecoded` | src/amqp_frame_codec.c:36-56 | an encoded performative is decoded and recognised exactly when within the decoder's limits |
| `AmqpFraming.MessageHeeded` | src/amqp_frame_codec.c:58-131 | one frame gives channel, performative and joined payloads, or the error callback |
| `AmqpFraming.FailedStays` | src/amqp_frame_codec.c:63-68 | after an error every frame is ignored |
| `AmqpFraming.HeartbeatAccepted` | src/amqp_frame_codec.c:340-372 | an empty frame is 8 octets, which every limit allows |
| `AmqpFraming.FullStackRoundTrip` | src/amqp_frame_codec.c:58-372 | any accepted messages with regular performatives (none with an array of two or more nulls), in any chunks, arrive through frame decoder, value decoder and splitter in order, up to the first performative beyond the limits |
| `NullArrays.RestIsPayload` | src/amqp_frame_codec.c:95-131 | null arrays among the fields of a performative: each becomes two fields for the decoder, and the octets of the fields that no longer fit are taken for payload |
| `NullArrays.EchoIsError` | src/amqp_frame_codec.c:36-56 | when such an array is the last field that fits, its last octet calls back with the performative and with a null, which is an error |
| `NullArrays.BodyOfFields` | src/amqp_frame_codec.c:58-131 | what becomes of any performative whose fields are null arrays or come back: one of these two, told by how many fields fit |
| `NullArrays.ArrivesExactlyWithoutNullArrays` | src/amqp_frame_codec.c:58-336 | such a message arrives as it was sent if and only if no field is an array of two or more nulls |
| `AmqpFraming.StackChunkingIsIrrelevant` | src/amqp_frame_codec.c:58-131 | on any octets at all, cutting them differently changes nothing that frame decoder, value decoder and splitter report together |
| `AmqpFraming.ArrivesWhole` | src/amqp_frame_codec.c:58-131 | all messages arrive if and only if every performative is within the decoder's limits |
| `AmqpFrameCodecs.AmqpFrameCodec.ValuesDecoded` | src/amqp_frame_codec.c:36-56 | the last performative stays, any other value is an error |
| `AmqpFrameCodecs.AmqpFrameCodec.DecodePerformative` | src/amqp_frame_codec.c:95-112 | the loop over single octets splits the body as specified |
| `AmqpFrameCodecs.AmqpFrameCodec.FrameReceived` | src/amqp_frame_codec.c:58-131 | channel, empty frame, performative with payload, or error |
| `AmqpFrameCodecs.AmqpFrameCodec.BytesReceived` | src/amqp_frame_codec.c:58-131 | frame codec and AMQP frame codec together report, for any octets, what the specification of the stack says |
| `AmqpFrameCodecs.AmqpFrameCodec.EncodeFrame` | src/amqp_frame_codec.c:221-372 | which messages are accepted and the octets they become |
| `LinkDeliveries.NothingDuplicatedOrLost` | src/link.c:598-634 | taking some deliveries off the list neither loses nor duplicates any |
| `LinkDeliveries.DispositionSettlesRange` | src/link.c:595-634 | a disposition calls back exactly the pending deliveries in its range and leaves the others |
| `LinkDeliveries.InputMoves` | src/link.c:367-756 | every event but a transfer only moves deliveries from the list to the callbacks, if and only if it is not a settled disposition without a state that names a pending one |
| `LinkDeliveries.TransferAccounted` | src/link.c:1586-1634 | an accepted transfer adds one pending delivery |
| `LinkDeliveries.EachDeliverySettledOnce` | src/link.c:138-1756 | over any interleaving each accepted delivery is pending, called back once, or forgotten, and in one of these only; accepted = called back + pending if and only if no settled disposition of the run is without a state and names a delivery pending at that moment |
| `LinkDeliveries.StatelessDispositionForgets` | src/link.c:615-628 | a settled disposition without a state takes deliveries off the list and calls nobody back, if and only if it names a pending one |
| `LinkDeliveries.NoneAcceptedAfterGiveup` | src/link.c:161-162 | once the list was destroyed no delivery is accepted or called back again, whatever happens |
| `LinkDeliveries.ListGoneExactlyWhen` | src/link.c:138-164 | the list is gone if and only if the peer detached, the session was lost, or an attach or flow lacked what it must carry |
| `LinkDeliveries.AcceptsExactlyWhen` | src/link.c:1490-1600 | an attached sender with credit whose session takes the transfer accepts it if and only if nothing was ever given up |
| `LinkAttaching.AttachedExactlyWhen` | src/link.c:367-756 | over every run a link is attached if and only if, since it last was detached or lost, its own attach went out and the peer's came in, half attached when one of the two did, and closed when it ever sent a closing detach |
| `LinkAttaching.OwnAttachVerdict` | src/link.c:717-731 | an attach goes out from a detached link that was not closed and from no other, so a peer that attaches first is never answered |
| `LinkAttaching.PeerDetachVerdict` | src/link.c:641-712 | what the peer's detach is answered with: a detach, an attach and a closing detach, or nothing |
| `LinkAttaching.OwnDetachVerdict` | src/link.c:1306-1408 | a detach of our own goes out from any attached or half attached link that was not closed |
| `LinkAttaching.NeverAttachesAgain` | src/link.c:258-306 | a link that was closed never attaches again, whatever happens |
| `LinkAttaching.PhaseAlwaysTold` | src/link.c:78-87 | over every run, what the owner of a link was told last is its phase |
| `LinkOutcomes.OutcomeExactlyWhen` | src/link.c:138-1756 | in every state of every run and for every event: a pending transfer leaves the list, and its caller is told why, exactly as the event says about the id, tick and timeout with which the transfer was accepted; a settled disposition naming the id the session gave settles it, a tick its timeout after it ends it |
| `LinkOutcomes.OnlyPendingSettled` | src/link.c:138-1756 | nobody but the caller of a pending transfer is called back |
| `LinkOutcomes.TransferVerdicts` | src/link.c:1490-1634 | a transfer is accepted exactly by an attached sender with credit and a list whose session takes it; busy, refused and accepted told apart |
| `LinkOutcomes.FlowOnExactlyWhen` | src/link.c:454-458 | the owner hears that it can send exactly when a flow leaves credit |
| `LinkOutcomes.DispositionAnswersDelivery` | src/link.c:531-556 | a disposition goes out exactly with a delivery that is answered, and carries its id |
| `LinkCredit.ModularDifference` | src/link.c:454 | the 32-bit sum and difference give the true difference whenever the limit is within reach |
| `LinkCredit.TransferEffect` | src/link.c:480-558 | how a transfer frame moves credit and count, and what it makes the receiver send |
| `LinkCredit.StepKeeps` | src/link.c:367-1634 | every step of the two links and their queues keeps the credit invariant, and limits only go up |
| `LinkCredit.CreditSafety` | src/link.c:399-1632 | over every run: received <= sent <= limit heard <= limit granted, the sender's modular credit is the true difference, the receiver's credit does not wrap |
| `LinkCredit.LimitsNeverGoDown` | src/link.c:480-484 | from any point of a run on, limits only go up |
| `LinkCredit.NoStarvation` | src/link.c:480-527 | with a maximum of at least 2, after everything sent was received there is credit for another delivery, and with both queues empty the sender can transfer |
| `LinkCredit.StarvesWithOne` | src/link.c:21-22 | with a maximum of 1 a single delivery leaves both queues empty and no credit |
| `LinkCredit.StarvesExactlyWhen` | src/link.c:480-527 | over all runs the sender is never left without credit while everything was received and answered, if and only if the maximum is at least 2 |
| `LinkReassembly.FrameEffect` | src/link.c:486-547 | what one transfer frame does to the gathered payload, the count and the indication |
| `LinkReassembly.Reassembled` | src/link.c:486-547 | a delivery cut into frames is indicated once, on its last frame, with all payloads in order and the first frame's id, and nothing is left behind |
| `LinkReassembly.ReassembledExactlyWhen` | src/link.c:491-499 | when only the first frame carries the id, a delivery arrives if and only if it has one frame or its first frame is not empty; otherwise it is dropped and not counted |
| `Links.Link.constructor` | src/link.c:811-905 | detached, with an empty list of pending deliveries |
| `Links.Link.SettleWhere` | src/link.c:598-634 | one pass over the list calls back and removes exactly the chosen deliveries |
| `Links.Link.RemoveAllPendingDeliveries` | src/link.c:138-164 | all pending deliveries are called back as not delivered and the list is gone |
| `Links.Link.AttachReceived` | src/link.c:372-425 | the peer's attach: count, credit, flow and phase |
| `Links.Link.FlowReceived` | src/link.c:426-464 | the peer's flow: the modular credit, or giving up |
| `Links.Link.TransferReceived` | src/link.c:465-564 | credit topped up, frame gathered, dropped or delivered, count and credit moved, disposition sent |
| `Links.Link.DispositionReceived` | src/link.c:565-640 | the pending deliveries in the range are called back, or only dropped without a state; nothing when not settled |
| `Links.Link.DetachReceived` | src/link.c:641-714 | the peer's detach: answer, give up, new phase |
| `Links.Link.SessionStateMapped` | src/link.c:722-731 | an attach is sent when the session is mapped |
| `Links.Link.Transfer` | src/link.c:1460-1649 | refused, busy or accepted, with count, credit and list |
| `Links.Link.CancelTransfer` | src/link.c:1447-1458 | a cancelled delivery is called back and removed |
| `Links.Link.Work` | src/link.c:1708-1756 | timed out deliveries are called back and removed |
| `Links.Link.Detach` | src/link.c:1306-1408 | a detach is sent unless detached, failed or closed; an attached link waits for the answer |
| `Endpoints.GapIsLowestFree` | src/connection.c:1898-1906 | the first gap of the sorted array is the lowest channel nobody has, and putting it there keeps the array sorted |
| `Endpoints.LowestFreeChannelAlways` | src/connection.c:1876-2075 | over any creates, destroys and changes of the limit the array stays strictly sorted, and a further create succeeds exactly when there are fewer endpoints than the limit in force; it takes the lowest unused channel, not above the number of endpoints |
| `Endpoints.EndpointTable.ChangeChannelMax` | src/connection.c:1537-1567 | the limit changes at START only, also to fewer than there are endpoints |
| `Endpoints.OneOwner` | src/connection.c:580-604 | no channel has two owners |
| `Endpoints.EndpointTable.FindByOutgoingChannel` | src/connection.c:580-604 | lookup finds the owner and only the owner, or nothing when there is none |
| `Endpoints.EndpointTable.CreateEndpoint` | src/connection.c:1876-1963 | the new endpoint is inserted at the gap and has its number |
| `Endpoints.EndpointTable.DestroyEndpoint` | src/connection.c:2010-2075 | exactly this endpoint is removed and the others keep their order |
| `Handshake.OctetKeeps` | src/connection.c:632-715 | header octets are accepted in order only, and the last one makes our OPEN go out with the limit given to the codec |
| `Handshake.OpenKeeps` | src/connection.c:860-929 | only an OPEN on channel 0 with a frame size of at least 512 completes the handshake |
| `Handshake.OpenOnlyWithHeader` | src/connection.c:661-676 | our OPEN goes out with the last octet of the header and at no other time, with the flag of that send |
| `Handshake.HandshakeHistory` | src/connection.c:264-2144 | over every run of a client: 8 header octets, our OPEN, the peer's OPEN, and only then session frames; OPENED implies all of it, with the announced frame size set in the codec, and the OPEN was taken by the io as the io answered when the header was complete |
| `Handshake.OpenTakenExactlyWhen` | src/connection.c:264-280 | in every run that reaches OPENED the io took our OPEN, with the frame size in force, if and only if it took the octets handed to it when the last octet of the header came |
| `Handshake.OpenedAfterSendingOpen` | src/connection.c:282-452 | when every send succeeds, OPENED implies that the io took our OPEN with the frame size in force |
| `Handshake.OpenedWithoutSendingOpen` | src/connection.c:418-443 | an instance of the other case: the OPEN is not taken, the failure is forgotten, and the peer's OPEN makes the connection OPENED |
| `IdleDeadlines.LastSentIsLogged` | src/connection.c:1781-2144 | the time of the last send is moved by events that hand a frame to the io, to their tick, and by no other event |
| `IdleDeadlines.LastReceivedIsLastFrame` | src/connection.c:811-858 | the time of the last receipt is the tick of the last frame of the peer, empty or not |
| `IdleDeadlines.CallOutcome` | src/connection.c:1781-1857 | a call closes when nothing was received for the local timeout; otherwise, when the send interval is over, it hands exactly one empty frame to the io; otherwise it does nothing |
| `IdleDeadlines.DeadlineIsFirstEnd` | src/connection.c:1794-1850 | the deadline returned is the tick at which the first of the two timeouts ends, no earlier and no later |
| `IdleDeadlines.DeadlinesKept` | src/connection.c:1781-1857 | calls by their deadlines keep the ticks at which frames are handed to the io, and the end of the run, within the send interval of each other, and close at the very tick the local timeout ends |
| `IdleDeadlines.DeadlinesSuffice` | src/connection.c:1781-1857 | the same from any first call on, whatever else happens to the connection |
| `OpenAndClose.IoOpenVerdict` | src/connection.c:731-777 | when its io is open a new connection sends the header, and one that exchanged headers its OPEN; a failed open or send of the header ends the connection |
| `OpenAndClose.HeaderVerdict` | src/connection.c:632-690 | an octet of the header is taken if and only if it is the one in its place in 41 4D 51 50 00 01 00 00; with the last one our OPEN goes out |
| `OpenAndClose.OpenVerdict` | src/connection.c:860-929 | after our OPEN went out the peer's makes the connection OPENED if and only if it is on channel 0, can be read, and its frame size is at least 512; otherwise a CLOSE is the answer |
| `OpenAndClose.ListenerOpenVerdict` | src/connection.c:904-925 | with both headers exchanged the peer's OPEN is answered with ours |
| `OpenAndClose.TimeoutTaken` | src/connection.c:885-895 | the send interval is the ratio of the peer's idle timeout, cut to whole milliseconds |
| `OpenAndClose.SecondOpenVerdict` | src/connection.c:866-875 | an OPEN in OPENED is answered with a CLOSE |
| `OpenAndClose.CloseVerdict` | src/connection.c:931-1010 | the peer's CLOSE is answered with ours and ends the connection, or is an error when its channel is above the limit or it cannot be read; after our own CLOSE it closes the io |
| `OpenAndClose.UserCloseVerdict` | src/connection.c:1429-1472 | a CLOSE goes out if it can be encoded, and the io is closed in any case |
| `OpenAndClose.SessionFrameVerdict` | src/connection.c:2078-2144 | a frame of a session goes to the io if and only if the connection is OPENED and the frame can be encoded |
| `OpenAndClose.FrameVerdict` | src/connection.c:827-858 | frames before the handshake or after the end close the io; a frame without a performative is an error in all other states |
| `OpenAndClose.CodecVerdict` | src/connection.c:691-713 | octets the frame codec refuses are answered with a CLOSE while frames are expected |
| `OpenAndClose.IoErrorVerdict` | src/connection.c:779-809 | an error of the io closes it unless the connection has ended |
| `OpenAndClose.SettingVerdict` | src/connection.c:1474-1567 | sizes from 512 and channel limits are taken at START alone, ratios above 0 and up to 1 always |
| `OpenAndClose.DefaultLimits` | src/connection.c:1240-1262 | unless somebody sets them, in every run the frame size is all of 32 bits, the channel limit all of 16, and the ratio a half |
| `OpenAndClose.NothingAfterClose` | src/connection.c:514-578 | over every run, from the time the io is open: once a CLOSE was handed over, no header, OPEN or frame of a session is, and no OPEN of the peer is accepted |
| `OpenAndClose.EmptyFrameAfterClose` | src/connection.c:1781-1857 | a connection that is over, also by its own CLOSE, goes on handing empty frames to the io exactly when the peer's timeout asks for them: the state is not looked at |
| `IdleDeadlines.NoSecondOpen` | src/connection.c:860-929 | past the handshake no OPEN is looked at again, so the peer's timeout stays |
| `IdleDeadlines.IntervalNeverExceedsTimeout` | src/connection.c:889-893 | in every run the send interval is at most the peer's timeout |
| `Connections.Connection.constructor` | src/connection.c:1147-1317 | START, default limits, both times at the tick of creation |
| `Connections.Connection.SendOpenFrame` | src/connection.c:282-452 | the frame size goes to the codec, the OPEN to the io, and the state to OPEN_SENT even after a failed send |
| `Connections.Connection.CloseConnectionWithError` | src/connection.c:514-578 | a CLOSE is sent and the state set to DISCARDING, or END |
| `Connections.Connection.Open` | src/connection.c:1355-1390 | START with the io open, END when the io cannot be opened, nothing when it is open already |
| `Connections.Connection.IoOpenComplete` | src/connection.c:731-777 | the header, or the OPEN, is sent when the io is open |
| `Connections.Connection.IoError` | src/connection.c:779-809 | an error state and a closed io, except when the connection has ended |
| `Connections.Connection.ByteReceived` | src/connection.c:632-715 | a header octet is compared and counted, the eighth sends our OPEN; a frame octet the codec refuses closes with an error |
| `Connections.Connection.OpenReceived` | src/connection.c:860-930 | accepted only on channel 0, before OPENED, with fields that parse and a frame size of at least 512; everything else closes |
| `Connections.Connection.CloseReceived` | src/connection.c:931-1010 | answered and ended, or only the io closed when we closed first, or an error for a bad channel or fields |
| `Connections.Connection.FrameReceived` | src/connection.c:827-1128 | the time of receipt is noted; what the connection does with OPEN, CLOSE, other and missing performatives in every state |
| `Connections.Connection.EncodeFrame` | src/connection.c:2078-2144 | frames of sessions are encoded only in OPENED, and count as sent only when the io took them |
| `Connections.Connection.HandleDeadlines` | src/connection.c:1781-1857 | the deadline returned, 0 after an idle close; the empty frame and the time it is noted as sent |
| `Connections.Connection.Close` | src/connection.c:1429-1472 | a CLOSE with or without an error, and the io is closed |
| `Connections.Connection.SetMaxFrameSize` | src/connection.c:1474-1511 | the frame size may change only at START and not below 512 |
| `Connections.Connection.SetRemoteIdleTimeoutEmptyFrameSendRatio` | src/connection.c:2160-2179 | only ratios above 0 and up to 1 are taken |
| `Connections.Connection.SetChannelMax` | src/connection.c:1537-1567 | the channel limit may change only at START |
| `ManagementOpening.ChangeKeeps` | src/amqp_management.c:426-607 | the flags of the two sides mean "reported open during some opening since creation", and one report answers an opening at most once |
| `ManagementOpening.OpeningsAnswered` | src/amqp_management.c:426-1143 | over every run each opening is answered exactly once, when it completes, fails or is cancelled; OPEN needs both sides reported open since creation, and both in this opening when neither was before |
| `ManagementOpening.OpensEarlyExactlyWhen` | src/amqp_management.c:796-797 | a report of one side completes an opening if and only if the other side was reported open before, and too early exactly when that was in an earlier opening only |
| `ManagementOperations.InputMoves` | src/amqp_management.c:72-1182 | every event but a request moves operations from the list to completions or cancellations and nowhere else |
| `ManagementOperations.ExecuteEffect` | src/amqp_management.c:1293-1343 | a request calls nobody back, also when its send finished or failed inside the send call; refused, it leaves everything as it was; accepted, it is pending with the next id, confirmed exactly when its send finished inside the call |
| `ManagementOperations.ExecuteConserves` | src/amqp_management.c:1316-1343 | a refused request changes nothing and an accepted one adds one pending operation; neither calls anybody back |
| `ManagementOperations.OperationsConserved` | src/amqp_management.c:72-1357 | over any run every accepted operation is in exactly one place: pending, completed by one callback, or cancelled without any |
| `ManagementOperations.PendingIdsDistinct` | src/amqp_management.c:1279-1341 | pending ids are distinct, and outside a send an operation is confirmed exactly when its send handle is NULL |
| `ManagementOperations.CloseCompletesAll` | src/amqp_management.c:1062-1143 | closing completes or has completed everything that was pending |
| `ManagementOutcomes.ReplyOutcome` | src/amqp_management.c:231-300 | after any run: the response to a pending operation takes it off the list, withdraws its send if that is under way, and tells the caller that it succeeded if and only if the send was reported successful before and the status is from 200 to 299, and a bad status otherwise |
| `ManagementOutcomes.UnmatchedReply` | src/amqp_management.c:72-230 | a response that cannot be read or answers nothing is reported as an error and changes nothing |
| `ManagementOutcomes.SendOutcome` | src/amqp_management.c:360-424 | a send that fails after the call completes its operation with an error; other reports tell nobody anything |
| `ManagementOutcomes.CancelOutcome` | src/amqp_management.c:1145-1182 | a cancelled operation leaves the list, its send is withdrawn if it is under way, and no result is told |
| `ManagementOutcomes.CloseOutcome` | src/amqp_management.c:1062-1143 | closing tells every pending operation that its send failed, if that was reported meanwhile, and else that the instance was closed, once sender and receiver closed; it cancels an opening and tells nobody else anything |
| `ManagementOutcomes.ExecuteVerdict` | src/amqp_management.c:1184-1357 | a request is taken exactly when the endpoint was opened and is not in error and its send did not fail; it gets the next id |
| `ManagementOutcomes.ChangeVerdict` | src/amqp_management.c:426-607 | when a report of one of the two links fails an opening, when it is an error, and when it is nothing |
| `ManagementOutcomes.OpenVerdict` | src/amqp_management.c:1001-1060 | an opening begins from IDLE alone, and when receiver and sender could be opened |
| `Managements.AmqpManagement.MessageSendComplete` | src/amqp_management.c:360-424 | a finished send, inside or outside the send call |
| `Managements.AmqpManagement.ExecuteOperation` | src/amqp_management.c:1184-1357 | a request is accepted exactly when there is a state for it and its send did not fail, and never calls anybody back |
| `Managements.AmqpManagement.MessageReceived` | src/amqp_management.c:72-358 | a response finds the operation with its correlation id and ends it as specified, or is an error (`ManagementOutcomes.ReplyOutcome`) |
| `Managements.AmqpManagement.CancelOperation` | src/amqp_management.c:1166-1182 | a cancelled operation is removed without a callback |
| `Managements.AmqpManagement.Close` | src/amqp_management.c:1062-1143 | in every state but IDLE: an opening is cancelled, sends that finish are taken in, and when sender and receiver close everything pending is completed as closed |
| `Managements.AmqpManagement.CloseOperations` | src/amqp_management.c:1108-1133 | the head of the list is told and removed until nothing is left |
| `Managements.AmqpManagement.OpenAsync` | src/amqp_management.c:1001-1060 | OPENING exactly from IDLE and when receiver and sender can be opened |
| `Managements.AmqpManagement.SendRequest` | src/amqp_management.c:1316-1320 | a request is on the list while it is sent, and its send may finish inside the send call |

## Left out

- Allocation failure: allocations succeed, and `malloc` of no octets gives a buffer; the explicit size limits are modelled.
- A value decoder that has failed is not used again, so what its half-changed fields do with more octets is not modelled; its owners stop using it.
- Values are immutable: sharing of reference-counted values by `amqpvalue_clone`, and cycles, are not modelled.
- WireDecoding.DecodeDenoted: the items of an array of described values each bring a descriptor, as this decoder reads them; section 1.6.24 of the standard would have them share it.
- Size fields of lists, maps and arrays are ignored by the decoder, in the code and in the model.
- RoundTrip.DecodeEncoded: arrays whose items have different types are outside its precondition, because `amqpvalue_add_array_item` refuses to build them (src/amqpvalue.c:1911-1916); arrays of two or more nulls are too, and have lemmas of their own in `ValueStream`, at the top level, and in `NullArrays`, as fields of a performative.
- RoundTrip.DecodeEncoded: contents of 2^32 octets or more are outside its precondition, because the C length fields cannot hold them.
- FrameCodecs.FrameCodec.SkippedOctets: the position of an unsubscribed frame counts without wrapping around at 2^64.
- Callbacks do not call back into the object that made them, except the send that finishes inside its own send call, which is modelled.
- `frame_codec_unsubscribe` and a change of subscriptions in the middle of a frame.
- NullArrays.BodyOfFields: null arrays deeper inside a field than the field itself, and performatives whose value is not a list, are not characterised.
- LinkDeliveries.EachDeliverySettledOnce: pre-settled sends, whose delivery is settled by the completion of the send, are not modelled; callbacks are never NULL.
- LinkCredit.CreditSafety: the maximum link credit does not change during a run, and the run ends with a detach.
- LinkReassembly.Reassembled: the 32-bit size of a gathered payload does not wrap.
- Sessions and message senders: their answers (accepted, busy, refused, finished inside or outside the call) are inputs; src/session.c and src/message_sender.c are not part of this model.
- Handshake.HandshakeHistory: connections opened by `connection_listen` are outside it, because they skip the header.
- The fields of an OPEN and of a response are inputs; the generated getters are not part of this model.
- Connections.Connection.FrameReceived: BEGIN and the frames of sessions are not handed on to endpoints here.
- IdleDeadlines.DeadlinesSuffice: ticks do not go back and stay below 2^64, and empty frames can be encoded, which only a failed allocation prevents (`AmqpFraming.HeartbeatAccepted`).
- Endpoints.EndpointTable.DestroyEndpoint: the array keeps its length when it shrinks; only the count goes down.
- Logging and tracing have no effect on the state; NULL arguments are refused before anything happens.
- The io, the SASL negotiation and header detection decide which octets reach a connection; here they are its inputs.
- CBS and the message receiver hand what links and management operations report on to their callers.
- The generated types name the fields of performatives; the codec treats them all alike, as described lists.
