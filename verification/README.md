# Verified models of the Mayven app: nanopb, spring, chat and forum

This project models four parts of the repository in Dafny and proves properties
of them. `dafny verify dfyconfig.toml` checks all of it.

**nanopb** (`iOS/Pods/nanopb`), the Protocol Buffers codec. A message type is a
sequence of field descriptors (`Schema`), a struct is its storage by data offset.
`Encode` and `Decode` say which bytes a struct becomes and what any byte sequence
does to a struct; the round trips, merging, forward compatibility and framing are
proved about these functions. The code itself works on streams, iterators and
structs that it updates in place: `InputStream`, `FieldIterator`, `Decoder`,
`OutputStream` and `Encoder` are classes and methods with the loops and the branches
of the C code, each proved to do exactly what the functions say, errors included.
`Transfer` joins both ends: a struct is encoded into a buffer and decoded from it.
`HeapDecode` and `Malloc` are the variant that allocates, with an allocator that may
refuse any request, and storage that may hold any pointers from before the call; the
account of every block is kept for all bytes, all storage and all answers of the
allocator; with one that grants every request the same messages are accepted as without
malloc. The width of `pb_size_t`, the size of a pointer and all offsets are
parameters.

**FloatingPanel's spring** (`Spring`), over exact reals: what one step computes, an
energy that never grows, and the number of frames after which the animation stops.

**The chat transcript** (`Transcript`): rows of dates between messages as older pages
are put in front and new messages come in behind.

**The forum feed** (`Feed`): pages of posts and ads from several callbacks, as a state
machine over the blocks that run on the main thread, and the class that they update.

| file | content |
|---|---|
| `Wire`, `Varint`, `Bits` | bytes, base 128, zigzag, both varint readers, keys, the bit map of required fields |
| `Schema`, `FieldIterator` | descriptors, offsets, defaults; the cyclic iterator |
| `Decode`, `Scalars`, `History` | what decoding means: every scalar in plain numbers, every member in terms of the records read |
| `Records`, `Frames`, `Merge`, `Packed`, `Typed` | the laws of decoding |
| `Encode`, `Encodable`, `RoundTrip`, `Received`, `Golden` | what encoding means, which structs can be encoded, round trips and framing, examples with their bytes |
| `InputStream`, `Decoder`, `OutputStream`, `Encoder` | the code that moves streams and updates structs |
| `Transfer` | encoding and decoding end to end |
| `Blocks`, `Storage`, `HeapDecode` | storage with pointers; what decoding does to it and to the heap |
| `Shapes`, `Accounts`, `Forgetting`, `HeapLaws`, `HeapOrder`, `HeapAgrees`, `HeapWitnesses`, `HeapCorners` | what every step keeps of it, the account of the heap, where that account fails, and that the same messages are accepted as without malloc |
| `Malloc` | the allocating code, which does what `HeapDecode` says |
| `Spring`, `Transcript`, `Feed` | the parts of the app and of FloatingPanel |

## Properties that fail

Each with an input at which it fails and the exact condition.

- Decoding `a + b` is not always decoding `a` and then `b`. `Merge.MergeRefused`: for
  one fixed-count array of one bool and `a == b == [8, 1]` the joined bytes are
  refused. `Merge.MergeExact`: that is the only difference, and it happens exactly when
  the last tag of a fixed-count array in `a` is the first one in `b`.
- A submessage that comes in two records is merged (`History.SubmessageInPieces`), but behind a
  pointer the second record replaces the first: `History.PointerReplaced`, for all such
  records, whatever the member held.
- The 32-bit varint reader takes words that are no sign-extended 32-bit numbers.
  `Varint.NoSignButTaken`: 2^63 + 2^31 is read as 2^31. `Varint.Varint32OfVarint`: the
  exact set.
- A string that fills its buffer without a terminator is written and then refused by
  the reader (`RoundTrip.UnterminatedString`).
- A successful `pb_decode` can lose a block in the variant with malloc, which then stays
  allocated after `pb_release`. `HeapWitnesses.BlockLost`: ten bytes with the records of a
  fixed-count array whose element holds a pointer, of another fixed-count array, and of
  the first one again. `HeapLaws.LostExactly`: after a success a block is lost exactly when
  a fixed-count array is begun whose elements would forget a block;
  `Forgetting.ForgetsExactly` says which elements these are. `HeapOrder.LostByOrder` says it of the
  bytes: exactly when records of an array whose elements have blocks come both before and after those
  of another fixed-count array.
- Defaults write a zero count over the beginning of every fixed-count array in place. When
  such an array is itself in an element that is set to its defaults again, that is the
  beginning of a pointer which may be in use: its block is lost, and `pb_release` frees
  an address that was never allocated. `HeapCorners.PointerOverwritten`: ten bytes after which
  that happens in a zeroed struct, and when it does not, for the three widths of a count.
- The count of an in-place array that is as long as a count can tell goes back to zero with
  one record too many. `pb_decode` then fails, as it should, but its release finds an
  empty array: every block of the elements stays allocated. `HeapCorners.CountWraps`: all records
  of it, for any blocks. `HeapLaws.LostExactly`: after a failure this is the only reason besides
  the one above.
- A failed `pb_decode` can free a block from before the call, or free a pointer that is
  not live. `HeapWitnesses.StaleFreed`: the single byte of the key of an in-place array of
  submessages, whose element is counted before it is set to its defaults.
  `HeapWitnesses.UnreadAfter`: for any schema and after any records, what is freed then;
  `HeapWitnesses.UnreadElement`: without records before it, that input leaves the heap untouched
  exactly when the first element, and the fixed-count arrays of the struct, have no pointers
  from before the call. `HeapWitnesses.StaleElement`: for any element with such a pointer there are
  bytes that disturb the heap.
- For all inputs, storage and allocators the heap is untouched exactly when no address was freed
  that was never one of a block, and the stale pointers that were freed are to the blocks that
  were lost (`HeapLaws.UntouchedExactly`). What a caller can rely on: `HeapLaws.ManyUntouched`,
  for zeroed or released structs and schemas in which the elements of fixed-count arrays, and of
  arrays as long as a count can tell, have no pointers; for messages whose records begin no such
  array again `HeapOrder.OrderUntouched`; and in all other cases `HeapLaws.CleanUntouched`.
- A page of the forum that arrives before the ads of the first page have been asked for
  makes the view count ads twice and insert behind the end of its list, exactly when
  the page has at least five posts (`Feed.OvertakenTraps`).
- A page that was asked for before the user refreshes, and arrives after it, makes the view
  trap exactly when its ads do not fit among the new posts (`Feed.StalePageTraps`; three
  posts and a stale page of five in `Feed.StalePageWitness`). `Feed.RunsExact`: any run of
  any blocks traps exactly when it completes a round of ads that does not fit.
- In the chat, after a first page whose messages are all from blocked users no new message is
  shown (`Transcript.BlockedFirstPage`: one such message and one from a friend;
  `Transcript.FirstPageThenMessage`: exactly after such pages).
- The spring does not only stop at rest: `Spring.StopsInMotion`, a value that passes its target
  at any speed stops there when a frame is short enough. What a stop does imply is
  `Spring.StopBounds`.

## Model

| member | source | states |
|---|---|---|
| Varint.VarintRoundTrip | iOS/Pods/nanopb/pb_encode.c:608-628 | every value below 2^64 takes at most ten bytes and is read back whatever follows, using just these bytes |
| Varint.VarintPrefixFree | iOS/Pods/nanopb/pb_encode.c:608-628 | no encoding is a prefix of another one |
| Varint.EncodeVarintSize | iOS/Pods/nanopb/pb_encode.c:619-625 | k bytes hold exactly the values below 2^(7k) |
| Varint.VarintAccepts | iOS/Pods/nanopb/pb_decode.c:255-275 | on any bytes the 64-bit reader succeeds exactly when a terminator is among the first ten bytes there are, and returns the base-128 number modulo 2^64 |
| Varint.ZigZagRoundTrip | iOS/Pods/nanopb/pb_decode.c:1269-1281 | zigzag is undone for every int64, and its words are below 2^64 |
| Varint.SvarintRoundTrip | iOS/Pods/nanopb/pb_encode.c:630-639 | every int64 survives pb_encode_svarint and pb_decode_svarint |
| Varint.Varint32OfVarint | iOS/Pods/nanopb/pb_decode.c:187-247 | the 32-bit reader on the 64-bit encoding of any v: accepted exactly when v is below 2^32 or looks like a sign extension, with the value modulo 2^32 |
| Varint.Varint32Canonical | iOS/Pods/nanopb/pb_decode.c:205-243 | below 2^63 it accepts exactly the values below 2^32 |
| Varint.Varint32Negative | iOS/Pods/nanopb/pb_decode.c:210-233 | every negative 32-bit number, written in ten bytes, is accepted and comes back |
| Varint.NoSignButTaken | iOS/Pods/nanopb/pb_decode.c:210-233 | 2^63 + 2^31 is accepted and read as 2^31 |
| Varint.TagRoundTrip | iOS/Pods/nanopb/pb_encode.c:669-673 | a key is read back as its field number and wire type |
| Varint.ZeroByteIsZeroTag | iOS/Pods/nanopb/pb_decode.c:298-319 | the terminator of a null-terminated message reads as the zero tag, whatever follows |
| InputStream.IStream.FromBuffer | iOS/Pods/nanopb/pb_decode.c:159-180 | a stream over a whole buffer |
| InputStream.IStream.ReadByte | iOS/Pods/nanopb/pb_decode.c:141-157 | one byte of the stream, or failure exactly at its end |
| InputStream.IStream.Read | iOS/Pods/nanopb/pb_decode.c:102-137 | exactly count bytes, or failure without moving |
| InputStream.IStream.DecodeVarint32Eof | iOS/Pods/nanopb/pb_decode.c:187-247 | the loop with its overflow tests accepts, returns and leaves what the function of the 32-bit reader says; end of data exactly on an empty stream |
| InputStream.IStream.DecodeVarint64 | iOS/Pods/nanopb/pb_decode.c:255-275 | the shifting loop computes the base-128 number modulo 2^64 and stops behind the terminator |
| InputStream.IStream.SkipVarintBytes | iOS/Pods/nanopb/pb_decode.c:278-287 | skipping stops behind the first terminator, however long the varint is |
| InputStream.IStream.SkipString | iOS/Pods/nanopb/pb_decode.c:289-296 | skipping a delimited value succeeds exactly when all its bytes are there |
| InputStream.IStream.ReadTag | iOS/Pods/nanopb/pb_decode.c:298-319 | key, zero tag, end of data and nonsense are told apart |
| InputStream.IStream.SkipValue | iOS/Pods/nanopb/pb_decode.c:321-331 | each wire type skips exactly its extent |
| InputStream.IStream.MakeSubstream | iOS/Pods/nanopb/pb_decode.c:372-385 | the substream is exactly the delimited bytes, and the parent keeps the rest; position plus bytes left is shared out without loss |
| InputStream.IStream.CloseSubstream | iOS/Pods/nanopb/pb_decode.c:387-400 | the parent continues behind the delimited bytes, whatever was left unread |
| FieldIterator.FieldIter.constructor | iOS/Pods/nanopb/pb_common.c:8-18 | the iterator starts at the first entry with its data and size pointers |
| FieldIterator.FieldIter.Next | iOS/Pods/nanopb/pb_common.c:20-76 | data pointer and required index are the prefix sum and the count of the new entry, for arrays, pointers and unions |
| FieldIterator.FieldIter.Find | iOS/Pods/nanopb/pb_common.c:78-95 | from any start it succeeds exactly when a field other than an extension has the tag, in at most one lap, and is back at its start on failure |
| FieldIterator.SizeOffsetAgrees | iOS/Pods/nanopb/pb_common.c:44-75 | inside a union the size pointer is right when the members agree on their which_ member |
| Schema.OffsetsApart | iOS/Pods/nanopb/pb_common.c:39-73 | two entries share storage only inside one union |
| Schema.NextOffset | iOS/Pods/nanopb/pb_common.c:39-73 | where a field is after the one before it: behind its bytes and the gap, or at the same place exactly in a union that goes on |
| Schema.DefaultsAt | iOS/Pods/nanopb/pb_decode.c:836-921 | after the loop over all fields every field is at its own default |
| Bits.SetBitIs | iOS/Pods/nanopb/pb_decode.c:1012-1017 | setting a bit of a word adds that one index to the set it stands for |
| Bits.WordBound | iOS/Pods/nanopb/pb_decode.c:1052-1067 | a word equals its mask exactly when every index below it is in the set |
| Decoder.WordsTell | iOS/Pods/nanopb/pb_decode.c:1050-1067 | whole words and the remainder compare equal exactly when every checked required field was seen |
| Decoder.CheckRequired | iOS/Pods/nanopb/pb_decode.c:1030-1070 | the walk to the end of the table and the comparison answer whether the first 64 required fields were seen |
| Decoder.MarkSeen | iOS/Pods/nanopb/pb_decode.c:1012-1017 | the word after the update stands for the set with the index of this field added, and only for required fields below 64 |
| Decoder.DecVarint | iOS/Pods/nanopb/pb_decode.c:1329-1364 | the value is truncated to 32 or 64 bits and refused when the member cannot hold it |
| Decoder.DecUvarint | iOS/Pods/nanopb/pb_decode.c:1366-1388 | the value is refused when it does not fit the unsigned member |
| Decoder.DecSvarint | iOS/Pods/nanopb/pb_decode.c:1390-1412 | zigzag is undone, and the value refused when it does not fit the member |
| Decoder.DecBytes | iOS/Pods/nanopb/pb_decode.c:1431-1466 | accepted exactly when size and bytes fit the buffer |
| Decoder.DecString | iOS/Pods/nanopb/pb_decode.c:1468-1501 | accepted exactly when bytes and terminator fit the buffer, with the room computed in 32 bits |
| Decoder.DecFixedLengthBytes | iOS/Pods/nanopb/pb_decode.c:1527-1548 | exactly the declared length, or empty for all zeros |
| Decoder.DecScalar | iOS/Pods/nanopb/pb_decode.c:1318-1548 | each scalar decoder with its narrowing, overflow and length tests is the function DecodeScalar |
| Decoder.DecPackedArray | iOS/Pods/nanopb/pb_decode.c:424-453 | the packed loop stores the items in order, or fails when they do not all fit |
| Decoder.DecPackedItems | iOS/Pods/nanopb/pb_decode.c:433-443 | the loop stops at the end, at a full array or at an item that does not decode; its items are those of DecodePacked |
| Decoder.DecodeStaticField | iOS/Pods/nanopb/pb_decode.c:406-480 | one static field of any kind: success, stream and struct are those of DecodeStatic |
| Decoder.DecSubmessage | iOS/Pods/nanopb/pb_decode.c:1503-1525 | array elements start from defaults, other submessages are merged into, and the parent stream moves behind the bytes |
| Decoder.SetToDefaults | iOS/Pods/nanopb/pb_decode.c:908-919 | every storage of the schema is at its default and nothing else changes |
| Decoder.ChooseCounter | iOS/Pods/nanopb/pb_decode.c:988-1010 | which counter a fixed-count array uses, and exactly when the change of array is refused |
| Decoder.DecodeNoinitInto | iOS/Pods/nanopb/pb_decode.c:925-1073 | the loop with its moving iterator, bit map and counter terminates on any bytes and computes DecodeNoinit, which visits no iterator at all |
| Decoder.DecodeLoop | iOS/Pods/nanopb/pb_decode.c:943-1021 | the loop up to the end of the data or a zero tag, from wherever the iterator stands: DecodeRecords |
| Decoder.CompareWords | iOS/Pods/nanopb/pb_decode.c:1050-1067 | whole words first, then the remaining bits |
| Decoder.DecodeOne | iOS/Pods/nanopb/pb_decode.c:957-1021 | one record behind its key: unknown fields are skipped, known ones decoded, from wherever the iterator stands |
| Decoder.DecodeInto | iOS/Pods/nanopb/pb_decode.c:1075-1087 | the same for pb_decode, from defaults |
| Decoder.DecodeDelimitedInto | iOS/Pods/nanopb/pb_decode.c:1104-1117 | the same for pb_decode_delimited |
| Scalars.VarintExactly | iOS/Pods/nanopb/pb_decode.c:1329-1364 | on any bytes: the number in two's complement, of 32 bits in members of up to four bytes, accepted exactly when it fits the member |
| Scalars.UnsignedExactly | iOS/Pods/nanopb/pb_decode.c:1366-1388 | accepted exactly when the number is below 2^(8n) for a member of n bytes |
| Scalars.ZigZagExactly | iOS/Pods/nanopb/pb_decode.c:1390-1412 | 0, 1, 2, 3, ... are read as 0, -1, 1, -2, ..., accepted exactly when they fit |
| Scalars.BoolExactly | iOS/Pods/nanopb/pb_decode.c:1318-1327 | every number but zero is true |
| Scalars.FixedExactly | iOS/Pods/nanopb/pb_decode.c:1414-1425 | four or eight bytes, least significant first |
| Scalars.BlobExactly | iOS/Pods/nanopb/pb_decode.c:1431-1501 | byte arrays and strings are accepted exactly when they fit with their count or terminator, and a string ends at its first NUL |
| Scalars.FixedLengthExactly | iOS/Pods/nanopb/pb_decode.c:1527-1548 | exactly the declared length, or no bytes, which stand for zeros |
| Scalars.DelimitedExactly | iOS/Pods/nanopb/pb_decode.c:372-385 | a length and exactly so many bytes |
| History.DefaultsArePristine | iOS/Pods/nanopb/pb_decode.c:836-921 | after defaults no member is present, and each is at its declared value, or zero, false or empty, at every depth |
| History.DecodingExplained | iOS/Pods/nanopb/pb_decode.c:925-1073 | pb_decode_noinit on any bytes that it accepts: what every member of the struct holds then, in terms of the records that were read and of what it held before |
| History.PresentIsRead | iOS/Pods/nanopb/pb_decode.c:856-860 | pb_decode on any bytes: has_ is set exactly when a record with the number was read, and a member without a record is at its default, written out |
| History.LastOneWins | iOS/Pods/nanopb/pb_decode.c:411-422 | a single scalar holds the value of its last record |
| History.ArraysCollect | iOS/Pods/nanopb/pb_decode.c:424-465 | an array with a count has the values of all its records behind what it had, packed or not, in order |
| History.FixedArraysFill | iOS/Pods/nanopb/pb_decode.c:988-1010 | an array of n places holds the last n values, and every place has been written if there was a record |
| History.SubmessagesMerge | iOS/Pods/nanopb/pb_decode.c:1503-1525 | a single submessage has taken in all its records one after the other, each on top of what it held |
| History.LastMemberWins | iOS/Pods/nanopb/pb_decode.c:467-474 | a union holds its last member that was read, decoded from defaults, and its which_ says so |
| History.SubmessageInPieces | iOS/Pods/nanopb/pb_decode.c:1503-1525 | the law of embedded messages: two records with a and then b are one record with a + b, except exactly where a + b is refused |
| History.PointerReplaced | iOS/Pods/nanopb/pb_decode.c:566-593 | behind a pointer the second record replaces the first |
| Records.RunConcat | iOS/Pods/nanopb/pb_decode.c:943-1021 | decoding a and then b is decoding a + b, for any complete a without a zero tag |
| Records.RecordLocal | iOS/Pods/nanopb/pb_decode.c:943-1021 | what one record does depends on no byte behind it |
| Merge.RequiredFieldsExact | iOS/Pods/nanopb/pb_decode.c:1030-1070 | success exactly when every record is accepted, the last fixed-count array is full, and each of the first 64 required fields is in the input, in any order |
| Merge.MergeExact | iOS/Pods/nanopb/pb_decode.h:74-75 | decoding a + b equals decoding a, then b, for all schemas, except that it is refused in exactly one situation |
| Merge.MergeRefused | iOS/Pods/nanopb/pb_decode.c:988-1010 | the exception exists: one full fixed-count array decodes alone and again, but not twice in a row |
| Frames.RunIsFold | iOS/Pods/nanopb/pb_decode.c:943-1021 | decoding whole records is applying the effect of each in turn |
| Frames.StaticExtent | iOS/Pods/nanopb/pb_decode.c:406-480 | a field that decodes with a fitting wire type ends where skipping it would end |
| Frames.UnknownFieldTransparent | iOS/Pods/nanopb/pb_decode.c:957-986 | a whole record of an unknown field between any two records changes nothing |
| Frames.UnknownRecords | iOS/Pods/nanopb/pb_decode.c:321-331 | such records exist for all four wire types |
| Frames.RecordsCommute | iOS/Pods/nanopb/pb_decode.c:943-1021 | neighbouring whole records of different storage, neither of a fixed-count array, may be swapped: same success, struct and rest |
| Frames.DifferentTagsDifferentPlaces | iOS/Pods/nanopb/pb_common.c:39-73 | different tags that are not in one union are different storage |
| Packed.PackedIsUnpacked | iOS/Pods/nanopb/pb_decode.c:424-464 | one packed record and single records of the same elements leave the decoder in the same state, or are both refused |
| Typed.DecodeKeepsTyped | iOS/Pods/nanopb/pb_decode.c:925-1073 | whatever decodes, every integer is in the range of its member, every string and byte array in its buffer, every count at most the array size |
| Encoder.VarintBytes | iOS/Pods/nanopb/pb_encode.c:619-625 | the loop over the ten-byte buffer writes the base-128 bytes |
| Encoder.PutVarint | iOS/Pods/nanopb/pb_encode.c:608-628 | both ways through pb_encode_varint write the base-128 bytes |
| Encoder.PutSvarint | iOS/Pods/nanopb/pb_encode.c:630-639 | the complement of a shifted word is the zigzag number |
| Encoder.PutTag | iOS/Pods/nanopb/pb_encode.c:669-673 | the key as a varint |
| Encoder.PutString | iOS/Pods/nanopb/pb_encode.c:709-715 | the length and the bytes |
| Encoder.PutScalar | iOS/Pods/nanopb/pb_encode.c:769-913 | each scalar encoder, or the error for a size that does not fit |
| Encoder.StringLength | iOS/Pods/nanopb/pb_encode.c:875-899 | the scan stops at the first NUL or at the end of the buffer |
| Encoder.CheckDefault | iOS/Pods/nanopb/pb_encode.c:240-337 | what counts as zero, through submessages of any depth |
| OutputStream.OStream.Write | iOS/Pods/nanopb/pb_encode.c:103-124 | bytes are added exactly when they fit, at the end of what was written, and nothing else changes |
| OutputStream.CopyBytes | iOS/Pods/nanopb/pb_encode.c:74-84 | the bytes are in place and no others have changed |
| OutputStream.OStream.Count | iOS/Pods/nanopb/pb_encode.c:103-124 | a sizing stream is afterwards as if any n bytes had been written to it, so that sizing and writing agree |
| Encoder.PutPacked | iOS/Pods/nanopb/pb_encode.c:162-204 | the size found before writing is the size written; a sizing stream only counts |
| Encoder.PutElements | iOS/Pods/nanopb/pb_encode.c:196-203 | the elements in order, on a sizing stream and on a buffer |
| Encoder.PackedSize | iOS/Pods/nanopb/pb_encode.c:168-191 | the size is that of the elements, found without writing |
| Encoder.FixedWidth | iOS/Pods/nanopb/pb_encode.c:169-176 | 4 or 8 bytes per element is what the elements really take |
| Encoder.PutArray | iOS/Pods/nanopb/pb_encode.c:147-235 | packed and unpacked arrays and the error for too large a count |
| Encoder.PutItems | iOS/Pods/nanopb/pb_encode.c:208-232 | each element with its own key |
| Encoder.PutField | iOS/Pods/nanopb/pb_encode.c:341-426 | which fields are written, by has_, which_, count or value, and as what |
| Encoder.IsPresent | iOS/Pods/nanopb/pb_encode.c:351-365 | has_, which_ or, without them, the value decides |
| Encoder.PutSubmessage | iOS/Pods/nanopb/pb_encode.c:717-765 | both passes agree: "submsg size changed" is never the result, at any depth, and success means length and bytes |
| Encoder.PutMessage | iOS/Pods/nanopb/pb_encode.c:528-550 | into a buffer it succeeds exactly when the encoding exists and fits, writes just those bytes and leaves the rest of the buffer alone; bytes_written never exceeds max_size |
| Encoder.GetEncodedSize | iOS/Pods/nanopb/pb_encode.c:567-576 | the number of bytes that a writing pass writes |
| Encoder.PutDelimited | iOS/Pods/nanopb/pb_encode.c:552-555 | the length and the message |
| Encoder.PutNullTerminated | iOS/Pods/nanopb/pb_encode.c:557-565 | the message and a zero byte |
| OutputStream.WroteBytes | iOS/Pods/nanopb/pb_encode.c:74-84 | after success the buffer is the old one with the encoding in its place |
| RoundTrip.ScalarRoundTrip | iOS/Pods/nanopb/pb_encode.c:769-913 | every scalar that its member can hold is read back, whatever follows |
| RoundTrip.UnterminatedString | iOS/Pods/nanopb/pb_decode.c:1468-1501 | a string without a terminator in its buffer is written but taken back exactly when there was room for the terminator |
| RoundTrip.ValueRoundTrip | iOS/Pods/nanopb/pb_decode.c:1503-1525 | a value of any kind, submessages included |
| RoundTrip.MessageRoundTrip | iOS/Pods/nanopb/pb_decode.c:1075-1087 | pb_decode of the bytes of pb_encode succeeds, uses all of them and returns the message with absent members at their defaults: required, optional, proto3, repeated, fixed-count, union and nested fields |
| Encodable.EncodesExactly | iOS/Pods/nanopb/pb_encode.c:528-550 | exactly which structs can be encoded: integers of a size that there is, byte arrays within their buffers, arrays within their sizes, in everything that is present |
| Golden.Number150 | iOS/Pods/nanopb/pb_encode.c:528-550 | field 1 with 150 is 08 96 01 |
| Golden.Testing | iOS/Pods/nanopb/pb_encode.c:875-899 | field 2 with "testing" is 12 07 and its letters |
| Golden.Embedded | iOS/Pods/nanopb/pb_encode.c:901-907 | field 3 with the first of these inside is 1a 03 08 96 01 |
| Golden.PackedNumbers | iOS/Pods/nanopb/pb_encode.c:147-204 | field 4 with 3, 270 and 12, packed, is 22 04 03 8e 02 0c |
| Golden.ByteArrays | iOS/Pods/nanopb/pb_encode.c:207-234 | two byte arrays in field 5, each behind its key |
| Golden.MinusTwo | iOS/Pods/nanopb/pb_encode.c:817-833 | field 6 with -2 in zigzag is 30 03 |
| Golden.OneInFourBytes | iOS/Pods/nanopb/pb_encode.c:846-850 | field 7 with 1 as fixed32 is 3d 01 00 00 00 |
| Golden.True | iOS/Pods/nanopb/pb_encode.c:769-774 | field 8 with true is 40 01 |
| Received.PresentIsWritten | iOS/Pods/nanopb/pb_encode.c:350-415 | exactly which members are written: required ones, optional ones whose has_ is set, arrays with elements, the active member of a union, and proto3 ones that are not zero, false or empty |
| Received.NothingWritten | iOS/Pods/nanopb/pb_encode.c:240-337 | a proto3 submessage counts as default exactly when nothing in it is written, at any depth |
| Received.MemberArrives | iOS/Pods/nanopb/pb_encode.c:341-426 | what the receiver gets of every member outside unions: an optional one is present exactly when it was at the sender, a proto3 one has the same value, an array the same elements |
| Received.UnionArrives | iOS/Pods/nanopb/pb_encode.c:405-414 | the active member of a union arrives with its tag |
| Received.UnionAbsent | iOS/Pods/nanopb/pb_encode.c:405-414 | and nothing, when no member that the schema has is active |
| Received.ReceivedPresent | iOS/Pods/nanopb/pb_encode.c:341-426 | a present member arrives as it was sent |
| Received.ReceivedAbsent | iOS/Pods/nanopb/pb_decode.c:836-905 | storage of which no member is present arrives at its default |
| Received.LeftOutIsDefault | iOS/Pods/nanopb/pb_encode.c:240-337 | a proto3 member other than a submessage is left out exactly when it is at the default that the receiver restores; fixed-length byte arrays are always sent |
| Received.ExactRoundTrip | iOS/Pods/nanopb/pb_encode.c:528-550 | a struct whose absent members are at their defaults, in submessages too, arrives unchanged |
| Received.DelimitedMessages | iOS/Pods/nanopb/pb_decode.c:1104-1117 | any number of messages written with pb_encode_delimited is read back in order, whatever follows |
| Received.NullTerminated | iOS/Pods/nanopb/pb_encode.c:557-565 | a null-terminated message decodes to itself whatever follows, for no encoded key is zero |
| Transfer.ReadyIsSized | iOS/Pods/nanopb/pb_encode.c:567-576 | a struct that can be sent and read back is one that can be measured: what the round trips ask for is enough for the encoder |
| Transfer.Transfer | iOS/Pods/nanopb/pb_encode.c:528-550 | pb_encode into a buffer and pb_decode from it: the encoder succeeds exactly when the encoding fits, and then the decoder finds the message |
| Transfer.TransferDelimited | iOS/Pods/nanopb/pb_encode.c:552-555 | the same with the length in front; the reader stops behind the message |
| Accounts.ReallocHolds | iOS/Pods/nanopb/pb_decode.c:487-530 | whatever pb_realloc answers, the account of the heap stays balanced: a block is allocated, moved or kept, and none is forgotten on failure |
| Accounts.BlobAccount | iOS/Pods/nanopb/pb_decode.c:1431-1501 | the block of a string or byte array is accounted for whether or not the bytes arrive |
| Accounts.PackedLoopAccount | iOS/Pods/nanopb/pb_decode.c:609-645 | the growing block of a packed array is accounted for at every exit of the loop |
| Accounts.StructAccount | iOS/Pods/nanopb/pb_decode.c:1503-1525 | a submessage keeps the account, also when it fails half-way, inside a block or in place |
| Accounts.ElementAccount | iOS/Pods/nanopb/pb_decode.c:455-464 | an element of an in-place array takes over all blocks that were allocated for it; counting it brings no block of the run into use, and a count that goes back to zero loses those of all elements |
| Accounts.PointerAccount | iOS/Pods/nanopb/pb_decode.c:566-593 | a duplicate submessage releases the old block and everything under it without a fault, unless a pointer in it was overwritten; after any outcome every block is owned by the field |
| Accounts.GrownAccount | iOS/Pods/nanopb/pb_decode.c:652-669 | an array in a block grows by one item, or keeps its items and its block |
| Accounts.KnownAccount | iOS/Pods/nanopb/pb_decode.c:994-1021 | one record of a known field keeps the account of the whole struct |
| Accounts.ReleaseHolds | iOS/Pods/nanopb/pb_decode.c:1184-1242 | releasing blocks of the run and the stale pointers in them never faults; a pointer that was overwritten does, and its block is lost |
| Accounts.ReleaseBroken | iOS/Pods/nanopb/pb_decode.c:1184-1242 | releasing stale pointers from before the run faults at most when they are not to lost blocks |
| Accounts.NoinitAccount | iOS/Pods/nanopb/pb_decode.c:925-1073 | over any run of pb_decode_noinit every live block was live before, or is owned by the struct, or is lost; after a failure but for stale pointers that were freed |
| Accounts.MessageAccount | iOS/Pods/nanopb/pb_decode.c:1075-1087 | the same for pb_decode with its defaults and its release, at any depth |
| Shapes.MessageSound | iOS/Pods/nanopb/pb_decode.c:1075-1087 | after pb_decode all storage is of the kind its fields describe; after a success pointers outside of arrays are NULL or to blocks of the run, and counts within the array sizes |
| Storage.DefaultsSound | iOS/Pods/nanopb/pb_decode.c:836-921 | setting to defaults makes every pointer outside of arrays NULL and every count zero; what becomes stale or a damaged pointer is no more than what was stale or owned before |
| Storage.OverwrittenSound | iOS/Pods/nanopb/pb_decode.c:857-863 | the zero count written over the first element of a fixed-count array leaves storage of the same kind, in which no block of the run is new |
| Storage.ZerosSound | iOS/Pods/nanopb/pb_decode.c:533-547 | zeroed storage is sound at every depth and has no pointers |
| Storage.AllFreed | iOS/Pods/nanopb/pb_decode.c:1184-1242 | pb_release makes every pointer NULL, at every depth, and changes nothing else |
| Storage.ClearedSound | iOS/Pods/nanopb/pb_decode.c:1154-1259 | after pb_release nothing in use points anywhere and no stale pointer is new |
| Forgetting.NoinitTracked | iOS/Pods/nanopb/pb_decode.c:988-1010 | over pb_decode_noinit blocks are lost only when a fixed-count array is begun whose elements would forget one, or a count goes back to zero; and then, on success, always |
| Forgetting.ForgetsExactly | iOS/Pods/nanopb/pb_decode.c:836-921 | exactly which elements forget a block when they are set to defaults: behind a pointer, in a counted array, or at the beginning of a fixed-count array, where a pointer or the count beside one is overwritten |
| HeapLaws.DecodeAccount | iOS/Pods/nanopb/pb_decode.c:1075-1087 | pb_decode on any storage: the account of the heap after a success and after a failure, when the struct owns nothing |
| HeapLaws.UntouchedExactly | iOS/Pods/nanopb/pb_decode.c:1075-1087 | pb_decode, with pb_release after a success, leaves the live blocks as they were and nothing freed twice exactly when no overwritten pointer was freed and the stale pointers freed are to the lost blocks |
| HeapLaws.LostExactly | iOS/Pods/nanopb/pb_decode.c:988-1010 | after a success a block is lost exactly when a fixed-count array of elements that would forget a block was begun; after a failure also when a count went back to zero; with pointer-free elements in both kinds of arrays none is |
| HeapLaws.CleanWhole | iOS/Pods/nanopb/pb_decode.c:1075-1087 | from storage without stale pointers in arrays nothing is freed that is not live and no block from before the call is freed, unless a block was lost whose pointer was overwritten |
| HeapLaws.CleanUntouched | iOS/Pods/nanopb/pb_decode.c:1245-1259 | if in addition no such array was begun and no count went back to zero, the heap is untouched and the struct is ready for the next message |
| HeapLaws.ManyUntouched | iOS/Pods/nanopb/pb_decode.c:1245-1259 | any number of messages decoded into one struct and released leave the heap untouched, if the elements of fixed-count arrays and of arrays as long as a count can tell have no pointers |
| HeapLaws.ZerosClean | iOS/Pods/nanopb/pb_decode.c:533-547 | a zeroed struct may be used for the first message |
| HeapOrder.NoneAgain | iOS/Pods/nanopb/pb_decode.c:988-1010 | when no fixed-count array of elements with pointers has records before and after those of another fixed-count array, none is begun whose elements would forget a block, whether or not the bytes decode |
| HeapOrder.AgainLoses | iOS/Pods/nanopb/pb_decode.c:988-1010 | a successful run in which an array is begun again whose elements have required pointers loses a block, whatever else the schema has |
| HeapOrder.LostByOrder | iOS/Pods/nanopb/pb_decode.c:988-1010 | for messages whose fixed-count arrays have elements without pointers or with required ones: after a success a block is lost exactly when the field numbers of the records have such an array before and after another fixed-count array |
| HeapOrder.OrderUntouched | iOS/Pods/nanopb/pb_decode.c:1245-1259 | clean storage and no such order of records: the heap is untouched and the struct ready for the next message, unless a count went back to zero |
| HeapAgrees.MessageAgrees | iOS/Pods/nanopb/pb_decode.c:550-684 | with malloc and without on any bytes: what the first accepts the second accepts, with the same bytes left and as many items in every array at every depth; and with an allocator that grants every request the other way round |
| HeapAgrees.BlobAgrees | iOS/Pods/nanopb/pb_decode.c:1431-1501 | strings and byte arrays in blocks: accepted exactly when the length is one that a count can be added to, with one request |
| HeapAgrees.PackedLoopAgrees | iOS/Pods/nanopb/pb_decode.c:609-645 | the loop with its growing block stores as many items as the loop in place, up to PB_SIZE_MAX, with at most one request for a byte |
| HeapAgrees.GuessIsRight | iOS/Pods/nanopb/pb_decode.c:619-632 | for values of a fixed size the guess at the room for a packed array is exact |
| HeapAgrees.EnoughRoom | iOS/Pods/nanopb/pb_decode.c:609-645 | and with that room nothing more is requested |
| HeapAgrees.OneMoreAgrees | iOS/Pods/nanopb/pb_decode.c:648-680 | one more item of an array in a block: its count goes up by one exactly when it is accepted |
| HeapAgrees.RenewedAgrees | iOS/Pods/nanopb/pb_decode.c:566-593 | a submessage in a block is decoded from defaults, whatever was there |
| HeapWitnesses.BlockLost | iOS/Pods/nanopb/pb_decode.c:994-1007 | an array begun for the second time: decoding succeeds and the first block is still live after pb_release |
| HeapWitnesses.StaleFreed | iOS/Pods/nanopb/pb_decode.c:455-464 | a truncated element record: the block that the element pointed to before the call is freed, or is a fault |
| HeapWitnesses.UnreadAfter | iOS/Pods/nanopb/pb_decode.c:455-464 | after any records that decode, the key of an in-place array alone: the run fails, and the release frees the stale pointers in use and those of the next element |
| HeapWitnesses.StaleElement | iOS/Pods/nanopb/pb_decode.c:455-464 | a pointer from before the call in any element of a counted array: the records of so many empty elements and the key of one more do not leave the heap untouched |
| HeapWitnesses.UnreadElement | iOS/Pods/nanopb/pb_decode.c:455-464 | for any schema the key of an in-place array alone leaves the heap untouched exactly when the storage that pb_release then walks has no stale pointers |
| HeapCorners.PointerOverwritten | iOS/Pods/nanopb/pb_decode.c:857-863 | a fixed-count array in an element that is decoded again: decoding succeeds, the block is lost and an address of no block is freed; or nothing happens, exactly when the address ends in zeros |
| HeapCorners.CountWraps | iOS/Pods/nanopb/pb_decode.c:455-464 | PB_SIZE_MAX + 1 records of an array of PB_SIZE_MAX elements: decoding fails and every block stays allocated |
| Malloc.ReleasedTwice | iOS/Pods/nanopb/pb_decode.c:1184-1242 | two releases are the release of the sum, with a fault exactly when together the blocks are not live or a pointer is to nowhere |
| Malloc.Release | iOS/Pods/nanopb/pb_decode.c:1245-1259 | the loop over the iterator frees exactly the blocks that the struct owns and the stale pointers in use, each one once, and faults exactly when they are not all live or a pointer was overwritten |
| Malloc.ReleaseField | iOS/Pods/nanopb/pb_decode.c:1154-1243 | one field: all blocks under it are freed, pointers become NULL |
| Malloc.ReleaseItems | iOS/Pods/nanopb/pb_decode.c:1208-1215 | the elements in order, each with everything it owns |
| Malloc.ReleaseEntries | iOS/Pods/nanopb/pb_decode.c:1220-1231 | the entries of a string or byte array, NULL ones included |
| Malloc.DecodeBlob | iOS/Pods/nanopb/pb_decode.c:1447-1457 | the block is allocated once the length is known and before the bytes are; success, stream, storage and heap are those of BlobInto |
| Malloc.DecodePackedItems | iOS/Pods/nanopb/pb_decode.c:609-645 | the loop with its guesses at the size computes the recursive PackedLoop |
| Malloc.DecodePlaces | iOS/Pods/nanopb/pb_decode.c:433-443 | the loop over a packed array in place stops at the end, at a full array or at an item that does not decode |
| Malloc.DecodeStruct | iOS/Pods/nanopb/pb_decode.c:1503-1525 | array elements start from defaults, other submessages are merged into, in a substream of exactly the delimited bytes |
| Malloc.DecodeElement | iOS/Pods/nanopb/pb_decode.c:455-464 | the count goes up before the element is decoded, stays up when that fails, and goes back to zero from its maximum |
| Malloc.DecodePointer | iOS/Pods/nanopb/pb_decode.c:566-593 | a duplicate submessage is released first; strings and scalars keep their block when it cannot be moved |
| Malloc.DecodeRecords | iOS/Pods/nanopb/pb_decode.c:943-1021 | the loop with its moving iterator, bit map and counter computes the record fold RecordsInto on storage and heap |
| Malloc.DecodeRecordInto | iOS/Pods/nanopb/pb_decode.c:957-1021 | one record behind its key, from wherever the iterator stands |
| Malloc.DecodeHeapNoinit | iOS/Pods/nanopb/pb_decode.c:925-1073 | the same with the two checks after the last record |
| Malloc.DecodeHeap | iOS/Pods/nanopb/pb_decode.c:1075-1087 | pb_decode is MessageInto: what the laws say of that function holds of the code, errors included |
| Malloc.DecodeAndRelease | iOS/Pods/nanopb/pb_decode.c:1245-1259 | pb_decode and pb_release on any storage: exactly when the heap is untouched, when a block is lost, and that clean structs are safe and clean again unless a block was lost |
| Spring.NumericSpringAnimator.Update | iOS/Pods/FloatingPanel/Sources/Core.swift:1172-1191 | in every frame the energy does not grow and shrinks by the factor of the frame; a frame that begins with little enough energy is the last one; after a stop the value is within a pixel of the target and the last move was at most a pixel |
| Spring.NumericSpringAnimator.StartAnimation | iOS/Pods/FloatingPanel/Sources/Core.swift:1143-1154 | starts once |
| Spring.StepIsImplicitEuler | iOS/Pods/FloatingPanel/Sources/Core.swift:1202-1209 | the new position is implicit Euler's; the new velocity is its velocity damped once more by f / det, because it reads the new position |
| Spring.EnergyShrinks | iOS/Pods/FloatingPanel/Sources/Core.swift:1202-1209 | omega^2 * (x - target)^2 + v^2 shrinks at least by the factor f / (f + h^2 * omega^2) in every frame |
| Spring.EnergyNeverGrows | iOS/Pods/FloatingPanel/Sources/Core.swift:1202-1209 | for all h, omega, zeta >= 0 |
| Spring.Converges | iOS/Pods/FloatingPanel/Sources/Core.swift:1172-1190 | frames of varying length, at least h0 each: an explicit number of them after which the stop test has been met |
| Spring.Finite | iOS/Pods/FloatingPanel/Sources/Core.swift:1187-1190 | from any start the animation stops after finitely many frames |
| Spring.StopBounds | iOS/Pods/FloatingPanel/Sources/Core.swift:1187-1190 | what the stop test implies: the distance to the target, the last move, and a bound on the speed that is left |
| Spring.StopsInMotion | iOS/Pods/FloatingPanel/Sources/Core.swift:1187-1190 | a value that passes its target at any speed is stopped there when the way in one frame is at most a pixel, with speed left |
| Transcript.LayoutCharacterised | iOS/Mayven/Chat/ChatView.swift:224-269 | the layout is the only list of rows with these messages in which a date comes before the first message, before each change of day and nowhere else |
| Transcript.InsertDates | iOS/Mayven/Chat/ChatView.swift:225-252 | inserting in place with a running total of dates gives the layout |
| Transcript.LayoutConcat | iOS/Mayven/Chat/ChatView.swift:259-268 | putting a page in front, without the old first date when the day goes on, gives the layout of all messages |
| Transcript.ChatView.OnPage | iOS/Mayven/Chat/ChatView.swift:196-277 | after any page, whatever the order of the dictionary, the rows are the layout of the messages shown; the page is in the ascending order of timePosted and shows just the children of users who are not blocked |
| Transcript.ChatView.VisibleRows | iOS/Mayven/Chat/ChatView.swift:204-222 | one row for every child of a user who is not blocked |
| Transcript.ChatView.Prepend | iOS/Mayven/Chat/ChatView.swift:259-269 | which pages are put in front, and the layout of the whole |
| Transcript.ChatView.OnChildAdded | iOS/Mayven/Chat/ChatView.swift:283-356 | after a new message the rows are the layout of one message more |
| Transcript.ChatView.LoadMore | iOS/Mayven/Chat/ChatView.swift:162-177 | the query starts from the first message shown, which is at index 1 whenever there are rows |
| Transcript.FirstPageThenMessage | iOS/Mayven/Chat/ChatView.swift:196-356 | the first page and then a new message: it is shown behind the page, except exactly when the page had messages and all were from blocked users |
| Transcript.BlockedFirstPage | iOS/Mayven/Chat/ChatView.swift:196-356 | one blocked message first: the message of a friend is not shown |
| Transcript.SortedIsPage | iOS/Mayven/Chat/ChatView.swift:204-225 | a page is in the ascending order of timePosted, and its rows are those of the children of users who are not blocked, each with all the fields of its child |
| Transcript.OrderKept | iOS/Mayven/Chat/ChatView.swift:196-356 | older pages and newer messages keep the whole transcript in the order of time |
| Transcript.InFrontExactly | iOS/Mayven/Chat/ChatView.swift:254-268 | exactly which pages are put in front |
| Transcript.PageOrderIrrelevant | iOS/Mayven/Chat/ChatView.swift:204-222 | two orders of the same dictionary give the same page when no two of its messages have the same time |
| Transcript.SortContents | iOS/Mayven/Chat/ChatView.swift:225-225 | sorting keeps exactly the rows of the page |
| Transcript.SortOrdered | iOS/Mayven/Chat/ChatView.swift:225-225 | and puts them in order: Transcript.OrderedAscending says that this is the ascending one of timePosted |
| Feed.StepShowsAds | iOS/Mayven/Forum/ForumView.swift:54-68 | which ads are on the screen after any block: those of the completed rounds, in the order in which they came |
| Feed.InsertAdsExact | iOS/Mayven/Forum/ForumView.swift:221-235 | ads go to the rows 6k + 5 and the posts stay in order; the insertion traps exactly when they do not fit |
| Feed.ReceivedExact | iOS/Mayven/Forum/ForumView.swift:54-68 | exactly when an ad that arrives traps, and what it does otherwise |
| Feed.CursorIsLastPost | iOS/Mayven/Forum/ForumView.swift:360-377 | the cursor is the last post, with or without an ad behind it |
| Feed.StepKeeps | iOS/Mayven/Forum/ForumView.swift:333-452 | every block that may come next keeps the layout and does not trap |
| Feed.RunsKeep | iOS/Mayven/Forum/ForumView.swift:242-452 | so does every run of them |
| Feed.FromRefresh | iOS/Mayven/Forum/ForumView.swift:242-260 | from a refresh in any state, when no request from before it is answered after it: all pages in order, ads at the rows 5, 11, 17, ..., every index in range |
| Feed.StepExact | iOS/Mayven/Forum/ForumView.swift:54-68 | whatever block runs next, it traps exactly when it completes a round of more ads than there are rows for |
| Feed.RunsExact | iOS/Mayven/Forum/ForumView.swift:242-452 | runs of any blocks in any order: exactly which ones trap |
| Feed.RefreshedRunsExact | iOS/Mayven/Forum/ForumView.swift:242-260 | in particular every run from a refresh in any state, stale pages and ads of old loaders included |
| Feed.StalePageTraps | iOS/Mayven/Forum/ForumView.swift:377-381 | a page from before the refresh makes the view trap exactly when its ads do not fit among the new posts |
| Feed.StalePageWitness | iOS/Mayven/Forum/ForumView.swift:377-381 | three new posts and a stale page of five |
| Feed.OvertakenTraps | iOS/Mayven/Forum/ForumView.swift:293-294 | a page that overtakes the request for the first ads makes the view trap exactly when it has at least five posts |
| Feed.ForumView.AddNativeAds | iOS/Mayven/Forum/ForumView.swift:215-240 | the loop over the two counters is InsertAds, and reaches its end when the ads fit |
| Feed.ForumView.DidReceive | iOS/Mayven/Forum/ForumView.swift:54-68 | an ad of the latest loader never traps and keeps the posts in order with ads at the rows 5, 11, 17; it places ads only when it completes its round, and then all of the round in the order in which they came |
| Feed.ForumView.AskForPage | iOS/Mayven/Forum/ForumView.swift:360-393 | with more than five rows the request starts from the last post delivered, whether or not an ad is behind it; the layout stays |
| Feed.ForumView.RefreshData | iOS/Mayven/Forum/ForumView.swift:242-260 | from any state, valid or not, an empty feed in which the layout holds and only the first page is awaited |
| Feed.ForumView.OnFirstPage | iOS/Mayven/Forum/ForumView.swift:281-327 | the posts shown are those of the page, in the layout |
| Feed.ForumView.AskForFirstAds | iOS/Mayven/Forum/ForumView.swift:292-315 | one ad for every five posts, so that all of them fit when they come |
| Feed.ForumView.LoadMoreData | iOS/Mayven/Forum/ForumView.swift:333-339 | while a page is on its way nothing changes; the layout stays |
| Feed.ForumView.OnPage | iOS/Mayven/Forum/ForumView.swift:377-381 | the posts shown are the old ones and then those of the page, with the ads where they were |
| Feed.ForumView.AskForPageAds | iOS/Mayven/Forum/ForumView.swift:390-402 | the ads asked for fit among the posts, and the next page may be asked for |
| Feed.ForumView.DidFailToReceiveAd | iOS/Mayven/Forum/ForumView.swift:46-52 | no ad is placed any more in this round, and the rows stay |

## Left out

- nanopb callback fields, extension fields and streams with user callbacks: user code. Streams are buffers, or sizing streams without a buffer.
- PB_WITHOUT_64BIT, PB_ENCODE_ARRAYS_UNPACKED, the AVR workaround, error message texts, packing of descriptors and the layout of C structs; offsets are kept where the iterator computes them.
- size_t is unbounded. What the encoder measures of the members that are present is required to be below 2^64 (`Encoder.SizedMsg`), and a length prefix that is to be read back below 2^32 (`RoundTrip.ReadyMsg`).
- Bitwise "or" and shifts are sums and products of numbers, with the overlap of bits written out where the C code allows it.
- Strings are their bytes before the first NUL; stale bytes behind a value are not represented, and storage that nothing has written is `Indeterminate`.
- Encoding storage that is `Indeterminate` is an error here, where the C code would send whatever bytes there are.
- A submessage is copied out of the parent struct and back in, where the C code decodes in place.
- A fixed-count array is `Indeterminate` after defaults; the C code overwrites its first bytes with a zero count.
- An empty schema meets field number 0 at its terminator and reads a bool there; the write outside the struct is not represented.
- The wire type of a record is not compared with the type of its field, as in the code.
- InputStream.IStream.DecodeVarint32Eof: does not model the 8-bit wrap of bitpos, which a varint of more than 36 bytes would reach.
- Malloc.DecodeHeap: schemas without unions and extensions, for pb_release_union_field is not modelled; and a schema is a finite tree, so message types that contain themselves through a pointer are outside.
- Malloc.AllocateField: the test for an overflow of the size is one more way for the allocator to refuse.
- HeapOrder.LostByOrder: fixed-count arrays of elements with pointers are in the message itself, not in its submessages, each of which begins its own arrays; for those HeapLaws.LostExactly is in terms of storage.
- HeapWitnesses.StaleElement: the counted arrays of the message itself, of elements without required fields.
- Storage.Overwritten: pointers and counts are aligned, so a zero count hits them only where they are at the very beginning; structs packed without alignment are not covered. What is left of an overwritten pointer is taken to be the address of no block, and the count of an array comes before the array, as in the macros of pb.h.
- HeapAgrees.MessageAgrees: the values of the members are not compared, only their presence and the number of items; schemas as for Malloc.DecodeHeap, with room for at least one element in every array in place.
- What the malloc variant stores, other than pointers and counts, is not modelled a second time.
- Spring.NumericSpringAnimator.Update: without the lock, the display link and the update callback; reals instead of floating point, and the damping ratio is any number that is not negative.
- The formatter of dates and the clock: a message carries the text of its day. Sorting by time is stable here; messages of equal time may come in another order in Swift.
- Transcript.ChatView.OnPage: which messages a query returns is up to Firebase, so nothing is said about the same message arriving twice; the first answer meets an empty list.
- Feed.ForumView.OnPage: the handlers are for runs in which every request is answered in order and by the latest loader; what happens otherwise is in Feed.RunsExact.
- Posts that other views delete or put in front, and prepare(for:sender:), which resets isLoading, are not modelled.
- The spinner, table reloads, tracking permission, the choice of programme and order, and totalAds and originalCount, which nothing reads.
- The rest of the app: UIKit, gestures, layout, Firebase, Core Data, images, notifications, login and the cloud functions.
