# Verified model of nanopb, Alamofire's request state machines and its multipart encoder

The iOS client vendors two libraries whose behaviour its network layer rests on. This project models their
hard parts in Dafny and proves what they promise.

**nanopb 0.3.9.7**, the Protocol Buffers codec, in its default configuration: static allocation, 64-bit
integers, memory streams, and the 32-bit `pb_size_t` that the descriptor tables in this repository demand.
The codec exists twice here. Once as functions on byte sequences and typed message values (`Wire`,
`Scalars`, `Decoder`, `Encoder`), about which the theorems are proved: round trip, unknown-field
projection, field-order independence, concatenation as merging, packed and unpacked arrays, bounds. And
once in the shape of the C code (`InputStream`, `FieldDecoders`, `MessageDecoder`, `OutputStream`,
`FieldEncoders`, `MessageEncoder`, `FieldIter`, `RequiredBits`): stream objects with a position and a
count of bytes left, the circular descriptor iterator, the two-word required-field bitmap, the two-pass
submessage encoder, all updated in place by loops, each proved to compute the corresponding function.

What the functions themselves must be is stated without them where it matters: `Acceptance` and `Overflow` give the
limits of every type and the bytes of every form, `Preservation` what survives a round trip and what is left out
for being zero, `Submessages` how frames merge into what a field holds, `Absence` and `Descriptor.DefaultContents`
what fields hold that were not mentioned.

The C struct behind a descriptor is modelled too (`Layout`): offsets, sizes, unions and the `pb.h` macros, from
whose relative numbers the iterator recovers the true addresses.

**Alamofire 5.4.1**: the authentication interceptor, the task map with the session's waiting completions,
the response-serializer pipeline with retries, and the counter that orders stream completions. Each is a
class whose lock-protected sections are proved against functions on its state, and a state machine whose
events are the possible next steps of all pending closures in any order; the invariants hold over every
finite run. `RetryTasks` composes the task map with the pipelines of all requests. `Credentials` traces every
result of the interceptor to the events that justify it.

**MultipartFormData**: the in-memory encoder and the streaming writer, both over streams that stand anywhere
and move arbitrary amounts, what a form used several times encodes, and a reader that shows when the parts
can be recovered.

## Conventions

- A descriptor is a tree of fields (`Descriptor.Desc`); a struct is a map from storage numbers to slots, and
  the members of one oneof share a storage number, as they share the union. `MessageShape` says that a
  struct has the layout of its descriptor; its strict form adds all bounds.
- `Readable` holds when every string leaves room for its terminator: the encoder writes up to `data_size`
  bytes of a string, the decoder needs one byte more. This is the exact condition of the round trip.
- `View(e, d, m)` is what decoding with descriptor `e` can give for a message `m` encoded with `d`: defaults,
  overwritten by the written fields `e` knows. `IsCanonical` messages are their own view.
- `Appends(before, after, ok, encoding)` is the contract of every encoding call: success exactly when there is
  an encoding and it fits, then exactly those bytes, and never a write outside the window.
- Wrap-around is written out where the C code relies on it: varint accumulation modulo 2^64 and 2^32, the
  8-bit `bitpos`, the integer casts, the 32-bit overflow check of string lengths.

Where the code and its documentation disagree, the model follows the code:

- `RefreshWindow` is documented to fail when more refreshes occurred than allowed; the code already refuses
  when as many occurred, so the bound on any window is `maximumAttempts` itself.
- `writeEncodedData` documents an error when encoding fails. Its private write loop ends without one when the
  output stream reports no space left (`MultipartWriter.CompleteIfSpace`); `writeEncodedData` itself writes to a
  file stream that it opens, so the silent stop is a property of the loop, not of every caller.
- `pb_decode_varint32` is commented to allow the sign extension of a negative value; it also takes values that are
  no sign extension, because each byte past bit 31 is checked alone (`Overflow.CanonicalAcceptance`).
- `pb_field_iter_next` leaves `pSize` as it was between members of a union; that is the right address only
  because all members share their `which_` member (`Layout.AddressesAreTrue`).

## Model

| member | source | states |
|---|---|---|
| RoundTrip.MessageRoundTrip | BunjangClone/Pods/nanopb/pb_decode.c:928-1090 | For every well-formed descriptor d, every descriptor e that is d without any of its fields at any nesting level, and every encodable message m shorter than 2^32 bytes: decoding the encoding of m with e consumes every byte and gives the projection of m onto e, if and only if every string that e keeps leaves room for its terminator; otherwise the decoder rejects. |
| Canonical.EncodeThenDecode | BunjangClone/Pods/nanopb/pb_encode.c:528-550 | Round trip with one descriptor: the decoder gives the view of the message (absent optionals at their defaults), and the message itself when it is canonical; it rejects exactly when a string has no room for its terminator. |
| Canonical.FullBufferIsRejected | BunjangClone/Pods/nanopb/pb_decode.c:1471-1504 | The failing side at an input: a string of n bytes in a buffer of n is encoded without an error, and pb_decode rejects the result. |
| Canonical.CanonicalView | BunjangClone/Pods/nanopb/pb_decode.c:839-908 | A message whose absent fields hold their defaults, and whose strings stop at their terminator, is its own view. |
| Canonical.StrictIsReadable | BunjangClone/Pods/nanopb/pb_decode.c:1471-1504 | Messages within their buffers, as the decoder leaves them, are always readable. |
| Canonical.DecodedReencodes | BunjangClone/Pods/nanopb/pb_encode.c:528-550 | Whatever pb_decode accepts can be encoded again, and the result decodes to the view of the decoded message, at the end of the input. |
| Stability.EncodingIsStable | BunjangClone/Pods/nanopb/pb_encode.c:528-550 | Encode, decode, encode: whenever the decoding succeeds, the second encoding equals the first, byte for byte. |
| Stability.EncodeView | BunjangClone/Pods/nanopb/pb_encode.c:240-337 | A message and its view have the same encoding, although the proto3 zero-value checks look at different contents. |
| Preservation.RoundTripKeepsContents | BunjangClone/Pods/nanopb/pb_encode.c:240-426 | Whatever is accepted after pb_encode has the contents of the message in every field the reader knows, at every level: each required and singular value, each present optional, each array item by item, each selected oneof member, strings up to their first zero byte; absent optionals stay absent. The statement does not mention which fields are written. |
| Preservation.SingularSurvives | BunjangClone/Pods/nanopb/pb_encode.c:318-336 | In particular a singular scalar field comes back with its value, zero or not. |
| Preservation.SingularIsSilent | BunjangClone/Pods/nanopb/pb_encode.c:269-336 | A singular field writes nothing exactly for false, 0, no bytes, empty text, bytes of fixed length 0, and for submessages whose own encoding is empty. |
| Preservation.ZeroMeansEmpty | BunjangClone/Pods/nanopb/pb_encode.c:289-308 | The recursive zero check accepts a message exactly when its encoding is empty. |
| Records.OrderIndependence | BunjangClone/Pods/nanopb/pb_decode.c:946-1024 | Two lists of records that agree, for every field and every oneof, on that field's records and their order are both rejected or both accepted with the same struct. |
| Records.LoopIsRun | BunjangClone/Pods/nanopb/pb_decode.c:946-1024 | On well-framed records the decoding loop is record-by-record application; the framing does not depend on the message. |
| Records.SplitAccepted | BunjangClone/Pods/nanopb/pb_decode.c:946-989 | Every input accepted without a terminator is a concatenation of well-framed records. |
| Records.LoopLeavesSuffix | BunjangClone/Pods/nanopb/pb_decode.c:102-139 | What an accepting loop leaves is a suffix of its input: position plus bytes_left is constant; without a terminator nothing is left. |
| Records.RunGivesCells | BunjangClone/Pods/nanopb/pb_common.c:78-95 | In an accepted input every storage cell holds the result of that cell's own records alone. |
| Records.CellsGiveRun | BunjangClone/Pods/nanopb/pb_common.c:78-95 | If every cell accepts its own records, the whole input is accepted. |
| Merging.ConcatenationIsMerging | BunjangClone/Pods/nanopb/pb_decode.h:70-80 | If pb_decode_noinit accepts a, without a terminator, and then b into the same struct, it accepts a followed by b and gives the same struct. |
| Merging.ConcatenationMerges | BunjangClone/Pods/nanopb/pb_decode.c:928-1076 | The exact form: a followed by b is accepted precisely when the loop accepts b into the struct left by a; b need not repeat the required fields. |
| Merging.LoopConcat | BunjangClone/Pods/nanopb/pb_decode.c:946-1024 | The loop on a followed by b is the loop on b from the state a left, accepted or rejected. |
| Submessages.FramesMerge | BunjangClone/Pods/nanopb/pb_decode.c:1518-1523 | Nested merging: for a required, an optional or an already selected oneof submessage, if the submessage accepts a, without terminator, and then b, two frames a and b leave the struct that the single frame a + b leaves. |
| Submessages.FrameRecord | BunjangClone/Pods/nanopb/pb_decode.c:1506-1528 | What one frame of a submessage field does under each field rule: it is decoded into what the field holds, for array entries and newly selected oneof members into the defaults. |
| Submessages.SwitchStartsOver | BunjangClone/Pods/nanopb/pb_decode.c:466-478 | Selecting another oneof member forgets what the union held. |
| Submessages.ScalarRecord | BunjangClone/Pods/nanopb/pb_decode.c:415-464 | What one scalar record does under each field rule: it replaces the value, sets has_ or which_, or appends to the array if there is room, and is rejected otherwise. |
| Submessages.LastOneWins | BunjangClone/Pods/nanopb/pb_decode.c:415-423 | Of two records of one scalar field that is no array, the last one counts. |
| Packing.ChunksConcatenate | BunjangClone/Pods/nanopb/pb_decode.c:424-464 | Any sequence of packed chunks (possibly empty) and single elements decodes to the concatenated array, if and only if the array stays within array_size; otherwise the input is rejected. |
| Packing.SplitDoesNotMatter | BunjangClone/Pods/nanopb/pb_decode.c:424-464 | Two splits of the same array decode alike. |
| Packing.PackedFrame | BunjangClone/Pods/nanopb/pb_decode.c:431-451 | A packed frame is taken whole or rejected, depending only on how many elements it adds. |
| Invariants.DecodedIsStrict | BunjangClone/Pods/nanopb/pb_decode.c:1078-1090 | Every byte string pb_decode accepts leaves a struct within all its bounds: counts at most array_size, byte arrays and terminated strings inside their buffers, integers within their width, oneof tags of members. |
| Invariants.NoInitKeepsShape | BunjangClone/Pods/nanopb/pb_decode.c:928-1076 | pb_decode_noinit keeps a well-shaped struct well shaped on every input it accepts. |
| Invariants.PackedShape | BunjangClone/Pods/nanopb/pb_decode.c:435-447 | A packed array never grows past array_size, whatever its frame contains. |
| Nesting.DepthBound | BunjangClone/Pods/nanopb/pb_decode.c:1506-1528 | On every input, accepted or not, submessage decoding nests at most half the input length deep. |
| Wire.VarintRoundTrip | BunjangClone/Pods/nanopb/pb_encode.c:608-628 | Every 64-bit value takes at most ten bytes and reads back as itself, whatever follows. |
| Wire.ZigZagRoundTrip | BunjangClone/Pods/nanopb/pb_encode.c:630-639 | Zig-zag maps every int64 to a uint64 and back. |
| Wire.LittleEndianRoundTrip | BunjangClone/Pods/nanopb/pb_encode.c:641-667 | A fixed-width word reads back from its little-endian bytes. |
| Wire.BlobFrame | BunjangClone/Pods/nanopb/pb_decode.c:289-296 | Reading a length-delimited value succeeds exactly when skipping it does, and both stop at the same place. |
| Varint32.AcceptsCanonical | BunjangClone/Pods/nanopb/pb_decode.c:187-252 | pb_decode_varint32 accepts the canonical encoding of every value below 2^32. |
| Varint32.AcceptsSmall | BunjangClone/Pods/nanopb/pb_decode.c:187-252 | It also accepts every padded encoding, of at most ten bytes, of such a value. |
| Varint32.AcceptsSignExtended | BunjangClone/Pods/nanopb/pb_decode.c:213-229 | It accepts every negative int32 sign-extended to 64 bits, as its value modulo 2^32. |
| Varint32.ReadersAgree | BunjangClone/Pods/nanopb/pb_decode.c:255-275 | Whenever the 32-bit and the 64-bit reader both accept, they consume the same bytes and agree modulo 2^32. |
| Overflow.CanonicalAcceptance | BunjangClone/Pods/nanopb/pb_decode.c:206-242 | The overflow check exactly: of all uint64 values in canonical encoding, pb_decode_varint32 takes those below 2^32, and of the others those with bits 31 and 63 set in which each group of seven bits from bit 35 to bit 62 is all zeros or all ones, whatever bits 32 to 34 are. |
| Overflow.AcceptsTornSign | BunjangClone/Pods/nanopb/pb_decode.c:213-222 | A value that is neither below 2^32 nor a sign extension and is taken: 2^63 + 2^31, as 2^31. |
| Scalars.ScalarRoundTrip | BunjangClone/Pods/nanopb/pb_decode.c:1321-1504 | Every scalar field (all numeric types, bytes, string, fixed-length bytes) reads back as itself if and only if it is not a string that fills its buffer; then the decoder rejects it. |
| Scalars.DecodedScalarFits | BunjangClone/Pods/nanopb/pb_decode.c:1332-1415 | A decoded scalar fits the width and buffer of its field. |
| Scalars.ScalarExtent | BunjangClone/Pods/nanopb/pb_decode.c:321-331 | A decoded scalar takes exactly the bytes that pb_skip_field would skip for its type. |
| Scalars.ScalarExtend | BunjangClone/Pods/nanopb/pb_decode.c:1321-1552 | Decoding a complete scalar does not look at the bytes after it. |
| Acceptance.VarintMeaning | BunjangClone/Pods/nanopb/pb_decode.c:255-275 | A varint ends at the first byte below 128, has at most ten bytes, and is the sum of its groups of seven bits modulo 2^64. |
| Acceptance.UnendedVarint | BunjangClone/Pods/nanopb/pb_decode.c:255-275 | An input without such a byte is rejected. |
| Acceptance.IntegerAcceptance | BunjangClone/Pods/nanopb/pb_decode.c:1332-1415 | What every integer field takes, for each size: a signed field the value in its range that is congruent to the varint, modulo 2^32 for sizes below 8; unsigned and zig-zag fields only the value itself; everything else is rejected. |
| Acceptance.BoolAcceptance | BunjangClone/Pods/nanopb/pb_decode.c:1321-1330 | A bool is true for every nonzero varint32. |
| Acceptance.WordAcceptance | BunjangClone/Pods/nanopb/pb_decode.c:1286-1319 | Fixed-width fields take four or eight bytes, lowest first, and reject fewer. |
| Acceptance.DataAcceptance | BunjangClone/Pods/nanopb/pb_decode.c:1434-1504 | Bytes are taken exactly when four more than their length fit data_size, strings when one more does; bytes of fixed length are taken at that length, an empty frame gives zeros. |
| Acceptance.ScalarForm | BunjangClone/Pods/nanopb/pb_encode.c:769-899 | The bytes of every scalar: 0 or 1, varints with negative integers sign-extended to 64 bits, zig-zag, little-endian words, length and contents, text up to its zero byte. |
| Acceptance.TagForm | BunjangClone/Pods/nanopb/pb_encode.c:669-707 | A tag is eight times the field number plus the code of the wire type that belongs to the field type. |
| Acceptance.SingleForm | BunjangClone/Pods/nanopb/pb_encode.c:341-426 | Required fields, present optionals and the selected oneof member are written as tag and value, absent ones as nothing. |
| Acceptance.ArrayForm | BunjangClone/Pods/nanopb/pb_encode.c:147-236 | Numbers are one record with tag, size and items; other arrays are a tag and an item each; an empty array is nothing. |
| Acceptance.ArrayEncodable | BunjangClone/Pods/nanopb/pb_encode.c:156-160 | An array is an encoding error exactly when it is longer than array_size or one of its items is an error. |
| Acceptance.EncodableExactly | BunjangClone/Pods/nanopb/pb_encode.c:865-870 | Of the scalar values only a byte array larger than its buffer is one. |
| Acceptance.ZeroEnds | BunjangClone/Pods/nanopb/pb_decode.c:310-314 | A zero byte where a tag is expected ends the message, and the rest is left. |
| Acceptance.UnknownIsSkipped | BunjangClone/Pods/nanopb/pb_decode.c:321-331 | A record of an unknown field is passed over (a varint of any length, eight bytes, four bytes, a blob); wire types 3, 4, 6 and 7 make the decoder reject. |
| Acceptance.KnownKindIgnored | BunjangClone/Pods/nanopb/pb_decode.c:406-483 | The wire type of a known field is not checked: it only tells a packed array from a single element. |
| Acceptance.EmptyTable | BunjangClone/Pods/nanopb/pb_common.c:78-95 | In a descriptor without fields, the search for tag 0 finds the terminating entry, so the record is read as a varint whatever its wire type. |
| Decoder.SlotExtend | BunjangClone/Pods/nanopb/pb_decode.c:406-483 | Locality: once its extent is complete, a record decodes the same whatever follows it. |
| Descriptor.DefaultSlots | BunjangClone/Pods/nanopb/pb_decode.c:911-922 | Default initialisation gives every field of a well-formed descriptor its initial slot. |
| Descriptor.DefaultContents | BunjangClone/Pods/nanopb/pb_decode.c:839-908 | What each field of a default-initialised struct holds, rule by rule and type by type: the declared default, else false, 0, no bytes, no text, zeros, or the defaults of the submessage; has_ is false, arrays are empty, no oneof member is selected. |
| Absence.UnmentionedIsKept | BunjangClone/Pods/nanopb/pb_decode.c:946-1024 | A field whose tag does not occur in an accepted input keeps what the struct held. |
| Absence.UnmentionedIsDefault | BunjangClone/Pods/nanopb/pb_decode.c:1078-1090 | So after pb_decode it holds its declared default, or zero. |
| Absence.MissingRequired | BunjangClone/Pods/nanopb/pb_decode.c:1036-1072 | An input that does not mention a required field among the first 64 entries is rejected. |
| Acceptance.AcceptedExactly | BunjangClone/Pods/nanopb/pb_decode.c:1036-1072 | A call succeeds exactly when its loop does and every required field with fewer than 64 required ones before it occurred. |
| Descriptor.DefaultsShape | BunjangClone/Pods/nanopb/pb_decode.c:839-922 | A default-initialised message is within all its bounds, recursively. |
| FieldIter.FieldIterator.constructor | BunjangClone/Pods/nanopb/pb_common.c:8-18 | pb_field_iter_begin leaves an iterator whose addresses and required-field number are the functions of position 0. |
| FieldIter.FieldIterator.Begin | BunjangClone/Pods/nanopb/pb_common.c:8-18 | Restarting gives the same, from any earlier state, and reports whether there are fields. |
| FieldIter.FieldIterator.Next | BunjangClone/Pods/nanopb/pb_common.c:20-76 | One step around the table keeps pData, pSize and required_field_index functions of pos alone, and reports the end of the table. |
| FieldIter.FieldIterator.Find | BunjangClone/Pods/nanopb/pb_common.c:78-95 | The search ends within one lap; it succeeds exactly when a non-extension entry has the tag, and stands on one then; a failed search returns to where it started. |
| Layout.AddressesAreTrue | BunjangClone/Pods/nanopb/pb.h:391-550 | For every struct layout (members in order with any padding, the members of a oneof at one offset with sizes of their own and one which_ member) the addresses that the iterator adds up from the macro-built table are dest + offsetof(member) and dest + offsetof of its has_, _count or which_ member, also behind a oneof whose last member is not its largest. |
| Layout.IteratorPointsAtMember | BunjangClone/Pods/nanopb/pb_common.c:20-76 | So wherever begin, next and find have left the iterator, pData and pSize point at the member it stands on and at its companion. |
| Layout.UnionsAreMarked | BunjangClone/Pods/nanopb/pb_common.c:43-50 | The test by which the iterator does not advance holds exactly between members of one union: no placement computed from offsets equals PB_SIZE_MAX. |
| Layout.BehindSmallLastMember | BunjangClone/Pods/nanopb/pb.h:402-405 | A oneof of 8 and of 1 byte at offset 8, and the next member at 16: its table entry is 7, and the iterator arrives at 16. |
| FieldIter.FindAgrees | BunjangClone/Pods/nanopb/pb_common.c:78-95 | For a well-formed descriptor the circular search from any position names the same field as a search from the start. |
| RequiredBits.MarkSeen | BunjangClone/Pods/nanopb/pb_decode.c:1015-1020 | Setting bit index & 31 of word index >> 5 adds exactly that number to the set the two words hold, for the first 64 required fields. |
| RequiredBits.CheckSeen | BunjangClone/Pods/nanopb/pb_decode.c:1054-1071 | The whole-word and remainder comparison passes exactly when every number below the capped count is in the set. |
| RequiredBits.NumbersMeanRequired | BunjangClone/Pods/nanopb/pb_decode.c:1036-1072 | All capped numbers are seen exactly when each of the first 64 required fields occurred. |
| RequiredBits.SeenNumbersAdd | BunjangClone/Pods/nanopb/pb_decode.c:1015-1020 | Finding a field adds its required-field number, and nothing else. |
| InputStream.IStream.BufRead | BunjangClone/Pods/nanopb/pb_decode.c:87-100 | Copies count bytes and leaves the rest of the destination unchanged. |
| InputStream.IStream.Read | BunjangClone/Pods/nanopb/pb_decode.c:102-137 | Succeeds exactly when enough bytes are left; on failure nothing moves; position plus bytes_left is constant. |
| InputStream.IStream.ReadByte | BunjangClone/Pods/nanopb/pb_decode.c:141-157 | Takes the first remaining byte, if there is one. |
| InputStream.IStream.DecodeVarint32Eof | BunjangClone/Pods/nanopb/pb_decode.c:187-247 | The multibyte loop with its 8-bit counter, its overflow checks and its end-of-stream report. |
| InputStream.IStream.DecodeVarint32 | BunjangClone/Pods/nanopb/pb_decode.c:249-252 | Reads a varint32 as the wire-level reader does, with the same value and the same bytes left. |
| InputStream.IStream.DecodeVarint | BunjangClone/Pods/nanopb/pb_decode.c:255-275 | The shift-and-OR loop computes the digits' value modulo 2^64, accepts at most ten bytes and stops where the digits end. |
| InputStream.IStream.SkipVarintBytes | BunjangClone/Pods/nanopb/pb_decode.c:278-287 | Passes over one varint of any length. |
| InputStream.IStream.SkipStringBytes | BunjangClone/Pods/nanopb/pb_decode.c:289-296 | Passes over a length-prefixed blob. |
| InputStream.IStream.DecodeTag | BunjangClone/Pods/nanopb/pb_decode.c:298-319 | Field number and wire type, or the end mark of a zero tag. |
| InputStream.IStream.SkipFieldBytes | BunjangClone/Pods/nanopb/pb_decode.c:321-331 | Skips by wire type and rejects unknown wire types. |
| InputStream.IStream.MakeStringSubstream | BunjangClone/Pods/nanopb/pb_decode.c:372-385 | The substream holds exactly the frame and the parent exactly what follows it; the frame is shorter than the input. |
| InputStream.IStream.CloseStringSubstream | BunjangClone/Pods/nanopb/pb_decode.c:387-400 | The parent ends exactly at the end of the frame, however much was read inside. |
| InputStream.IStream.DecodeSVarint | BunjangClone/Pods/nanopb/pb_decode.c:1272-1284 | Reads a varint and undoes zig-zag. |
| InputStream.IStream.DecodeFixed32 | BunjangClone/Pods/nanopb/pb_decode.c:1286-1299 | The shifts and ORs give the little-endian value of four bytes. |
| InputStream.IStream.DecodeFixed64 | BunjangClone/Pods/nanopb/pb_decode.c:1301-1319 | The same for eight bytes. |
| FieldDecoders.DecVarint | BunjangClone/Pods/nanopb/pb_decode.c:1332-1367 | Casts to int32 first for narrow fields, checks that the value fits, and accepts exactly what the field specification accepts. |
| FieldDecoders.DecUVarint | BunjangClone/Pods/nanopb/pb_decode.c:1369-1391 | The same for unsigned fields. |
| FieldDecoders.DecSVarint | BunjangClone/Pods/nanopb/pb_decode.c:1393-1415 | The same for zig-zag fields. |
| FieldDecoders.DecBytes | BunjangClone/Pods/nanopb/pb_decode.c:1434-1469 | Accepts exactly the blobs that fit the byte array, and writes only inside it. |
| FieldDecoders.DecString | BunjangClone/Pods/nanopb/pb_decode.c:1471-1504 | Accepts exactly the blobs that leave room for the terminator, and writes the terminator inside the buffer. |
| FieldDecoders.DecFixedLengthBytes | BunjangClone/Pods/nanopb/pb_decode.c:1530-1552 | An empty blob gives zeros; any other length than the field's is rejected. |
| FieldDecoders.DecScalar | BunjangClone/Pods/nanopb/pb_decode.c:63-77 | Every decoder in the table agrees with the specification of its type. |
| MessageDecoder.FieldSetToDefault | BunjangClone/Pods/nanopb/pb_decode.c:839-908 | Sets one field to its initial slot, whose contents Descriptor.DefaultContents states, and touches no other. |
| MessageDecoder.MessageSetToDefaults | BunjangClone/Pods/nanopb/pb_decode.c:911-922 | The iterator loop resets every field of the descriptor and nothing else. |
| MessageDecoder.DecSubmessage | BunjangClone/Pods/nanopb/pb_decode.c:1506-1528 | Decodes the frame into the given struct as the specification does and leaves the stream past the frame; Submessages.FrameRecord states which struct that is. |
| MessageDecoder.DecPackedItems | BunjangClone/Pods/nanopb/pb_decode.c:435-450 | The packed loop accepts exactly the frames whose elements all decode and fit the array. |
| MessageDecoder.DecodeStaticField | BunjangClone/Pods/nanopb/pb_decode.c:406-483 | One record updates the slot of its field as specified, the stream ends past the record, and no other slot changes, even when the record fails. |
| MessageDecoder.CountRequired | BunjangClone/Pods/nanopb/pb_decode.c:1041-1049 | Running the iterator to the end of the table from any position gives the number of required fields. |
| MessageDecoder.CheckRequired | BunjangClone/Pods/nanopb/pb_decode.c:1036-1072 | The final check accepts exactly when each of the first 64 required fields occurred. |
| MessageDecoder.DecodeNoInitInto | BunjangClone/Pods/nanopb/pb_decode.c:928-1076 | The loop over stream, iterator, bitmap and struct computes the specification of pb_decode_noinit: same acceptance, same struct, same bytes left; it ends on every input. |
| MessageDecoder.DecodeInto | BunjangClone/Pods/nanopb/pb_decode.c:1078-1090 | pb_decode: defaults first, then the same. |
| MessageDecoder.DecodeDelimitedNoInit | BunjangClone/Pods/nanopb/pb_decode.c:1092-1105 | Merges one frame into the struct and leaves the parent exactly past it. |
| MessageDecoder.DecodeDelimited | BunjangClone/Pods/nanopb/pb_decode.c:1107-1120 | Decodes one frame and leaves the parent exactly past it. |
| OutputStream.OStream.BufWrite | BunjangClone/Pods/nanopb/pb_encode.c:74-84 | Writes the bytes at the current place and changes nothing else in the buffer. |
| OutputStream.OStream.Write | BunjangClone/Pods/nanopb/pb_encode.c:103-124 | Succeeds exactly when the bytes fit the window, or the stream only counts; a failed write changes nothing in the buffer. |
| OutputStream.OStream.EncodeVarint | BunjangClone/Pods/nanopb/pb_encode.c:608-628 | Appends the varint of every 64-bit value, using at most the ten bytes of its buffer. |
| OutputStream.FillVarint | BunjangClone/Pods/nanopb/pb_encode.c:618-625 | The shifting loop produces the groups of seven bits with the continuation bit on all but the last. |
| OutputStream.OStream.EncodeSVarint | BunjangClone/Pods/nanopb/pb_encode.c:630-639 | Appends the varint of the zig-zag value; the complement of the shifted word is that value. |
| OutputStream.OStream.EncodeFixed32 | BunjangClone/Pods/nanopb/pb_encode.c:641-650 | Appends the little-endian bytes. |
| OutputStream.OStream.EncodeFixed64 | BunjangClone/Pods/nanopb/pb_encode.c:653-666 | The same for eight bytes. |
| OutputStream.OStream.EncodeTag | BunjangClone/Pods/nanopb/pb_encode.c:669-673 | Appends field number and wire type as one varint. |
| OutputStream.OStream.EncodeString | BunjangClone/Pods/nanopb/pb_encode.c:709-715 | Appends length and contents. |
| OutputStream.AppendsThen | BunjangClone/Pods/nanopb/pb_encode.c:103-124 | Appending calls compose: one after the other appends the concatenation, and fails exactly when the whole does not fit. |
| FieldEncoders.EncString | BunjangClone/Pods/nanopb/pb_encode.c:875-899 | The strnlen loop stops at the terminator or the end of the buffer. |
| FieldEncoders.EncBytes | BunjangClone/Pods/nanopb/pb_encode.c:852-873 | Rejects exactly the byte arrays that claim more than their buffer. |
| FieldEncoders.EncScalar | BunjangClone/Pods/nanopb/pb_encode.c:55-69 | Every encoder in the table appends the specified bytes or reports an error exactly when it must. |
| MessageEncoder.CheckDefaultValue | BunjangClone/Pods/nanopb/pb_encode.c:240-337 | The recursive zero-value check computes IsZeroSlot, which Preservation.ZeroMeansEmpty and SingularIsSilent characterise. |
| MessageEncoder.PackedLength | BunjangClone/Pods/nanopb/pb_encode.c:172-194 | The size of a packed array, by multiplication or by a sizing stream, is the number of bytes its items take. |
| MessageEncoder.EncodePackedArray | BunjangClone/Pods/nanopb/pb_encode.c:166-211 | Tag, size and items; counting and writing streams agree. |
| MessageEncoder.EncodeUnpackedArray | BunjangClone/Pods/nanopb/pb_encode.c:213-233 | A tag before every item; fails when an item does, or does not fit. |
| MessageEncoder.EncodeArray | BunjangClone/Pods/nanopb/pb_encode.c:147-236 | Packs whenever the type allows it; rejects arrays longer than array_size. |
| MessageEncoder.EncodeBasicField | BunjangClone/Pods/nanopb/pb_encode.c:341-426 | Writes required fields always, optional fields when present, singular fields when not zero, the selected oneof member only. |
| MessageEncoder.Encode | BunjangClone/Pods/nanopb/pb_encode.c:528-550 | pb_encode succeeds exactly when the message is encodable and its encoding fits the window; it then appends exactly that encoding, never writes outside the window, and never is the source of the error about a changed submessage size. |
| MessageEncoder.EncodeSubmessage | BunjangClone/Pods/nanopb/pb_encode.c:717-765 | The size pass and the write pass agree, so the length prefix is always right and the size-changed error never arises. |
| MessageEncoder.WritePass | BunjangClone/Pods/nanopb/pb_encode.c:745-764 | After a successful size pass the write pass always succeeds in a window of that size. |
| MessageEncoder.EncodeNullTerminated | BunjangClone/Pods/nanopb/pb_encode.c:557-565 | The encoding followed by one zero byte. |
| MessageEncoder.GetEncodedSize | BunjangClone/Pods/nanopb/pb_encode.c:567-576 | The encoded size is the length of what pb_encode writes. |
| MessageEncoder.EncodeToBuffer | BunjangClone/Pods/nanopb/pb_encode.c:86-101 | Encoding into a buffer of c bytes succeeds exactly when the encodable message takes at most c; the buffer then starts with the encoding and is unchanged behind it. |
| Authentication.RunsAreSingleFlight | BunjangClone/Pods/Alamofire/Source/AuthenticationInterceptor.swift:251-403 | Over every interleaving of adapt, retry, queue work and refresh answers: at most one refresh is dispatched or in flight, exactly when isRefreshing holds; otherwise both queues are empty; and every completion is in exactly as many places (queued, dispatched, pending, called) as it was submitted. |
| Authentication.NothingIsLost | BunjangClone/Pods/Alamofire/Source/AuthenticationInterceptor.swift:371-403 | When nothing is left to run, every completion was called exactly as often as it was submitted. |
| Authentication.SlidingWindow | BunjangClone/Pods/Alamofire/Source/AuthenticationInterceptor.swift:331-369 | In no run does a closed time window of the configured length contain more than maximumAttempts refreshes, although the clock is read separately for the check and for the timestamp; there is one timestamp for every authenticator.refresh call made and one for each, at most one, still waiting on the queue. |
| Authentication.StepSpends | BunjangClone/Pods/Alamofire/Source/AuthenticationInterceptor.swift:343-352 | Every step keeps the difference between timestamps and refresh calls, made or waiting. |
| Authentication.AppendBounded | BunjangClone/Pods/Alamofire/Source/AuthenticationInterceptor.swift:356-369 | A refresh allowed by the count keeps every window bounded. |
| Credentials.LastInstalledIsHeld | BunjangClone/Pods/Alamofire/Source/AuthenticationInterceptor.swift:371-372 | Over every run the credential held is the one installed last by the constructor, a SetCredential or a successful answer, a function of the events alone. |
| Credentials.EveryResultIsJustified | BunjangClone/Pods/Alamofire/Source/AuthenticationInterceptor.swift:251-403 | Over every run each completion called has its reason in an earlier event: a request is adapted with the credential that was installed last when the locked section of adapt ran for it, outside a refresh and needing none; it fails to adapt because none was installed then, or with the error of a refresh that failed or was one too many; it is retried after a successful refresh or because it carried an older credential. |
| Credentials.EveryRefreshIsNeeded | BunjangClone/Pods/Alamofire/Source/AuthenticationInterceptor.swift:331-354 | A refresh is dispatched only when none is under way and the window is not full, for the credential adapt found installed and expired, or that a failed request was authenticated with. |
| Credentials.DecidedAtOnce | BunjangClone/Pods/Alamofire/Source/AuthenticationInterceptor.swift:294-318 | What retry and adapt decide without waiting, also while a refresh is under way, leaves the shared state alone. |
| Credentials.ExcessiveIsTooMany | BunjangClone/Pods/Alamofire/Source/AuthenticationInterceptor.swift:356-369 | The check counts the timestamps in the past interval: it holds exactly when a window is set and at least maximumAttempts lie in it. |
| Authentication.StepKeeps | BunjangClone/Pods/Alamofire/Source/AuthenticationInterceptor.swift:251-403 | Every step keeps single flight and conservation. |
| Authentication.AuthenticationInterceptor.Adapt | BunjangClone/Pods/Alamofire/Source/AuthenticationInterceptor.swift:251-275 | The locked section of adapt: defer while refreshing, refuse without a credential, defer and refresh, or adapt. |
| Authentication.AuthenticationInterceptor.Retry | BunjangClone/Pods/Alamofire/Source/AuthenticationInterceptor.swift:320-326 | The locked section of retry: queue the completion, and refresh unless one is under way. |
| Authentication.AuthenticationInterceptor.Refresh | BunjangClone/Pods/Alamofire/Source/AuthenticationInterceptor.swift:331-354 | Either the failure section for excessive refreshes, or one timestamp, the flag and one dispatched refresh. |
| Authentication.AuthenticationInterceptor.IsRefreshExcessive | BunjangClone/Pods/Alamofire/Source/AuthenticationInterceptor.swift:356-369 | The count of refreshes in the window is compared with the maximum. |
| Authentication.AuthenticationInterceptor.HandleRefreshSuccess | BunjangClone/Pods/Alamofire/Source/AuthenticationInterceptor.swift:371-387 | The new credential is stored, both queues move into one dispatched closure, and the flag is cleared; nothing else changes. |
| Authentication.AuthenticationInterceptor.HandleRefreshFailure | BunjangClone/Pods/Alamofire/Source/AuthenticationInterceptor.swift:389-403 | The same with the error, and the credential stays. |
| TaskMap.Rendezvous | BunjangClone/Pods/Alamofire/Source/Session.swift:1218-1239 | Over every interleaving of create, metrics and complete: no fatalError is reached, the maps stay mutually inverse with the same tasks as taskEvents, waitingCompletions holds exactly the completed tasks without metrics, and a completion runs exactly once, after both events. |
| RetryTasks.RetriesFindNoTask | BunjangClone/Pods/Alamofire/Source/Session.swift:1191-1206 | Task map and pipelines composed, for any number of requests with any retries: no fatalError is reached, every completion finds its request performing, and whenever an attempt, the first or a retried one, creates its task, the request has none, so that associating the two keeps the maps inverse. |
| RetryTasks.OneTaskPerAttempt | BunjangClone/Pods/Alamofire/Source/Session.swift:1084-1096 | Two tasks of one request were created in different attempts, none later than its retry count. |
| RetryTasks.SessionKeeps | BunjangClone/Pods/Alamofire/Source/Session.swift:1218-1239 | A session event never fails; if it runs the completion of a task, it ends the attempt of the task's request and frees the request. |
| RetryTasks.CreateKeeps | BunjangClone/Pods/Alamofire/Source/Session.swift:1084-1096 | Creating the task of an attempt is possible and keeps every request's association. |
| TaskMap.CompletionRunsUnassociated | BunjangClone/Pods/Alamofire/Source/Session.swift:1218-1239 | When a completion runs, its request has no task, so a retry it starts can associate a new one. |
| TaskMap.AssociationCondition | BunjangClone/Pods/Alamofire/Source/RequestTaskMap.swift:47-66 | Associating keeps the map consistent if and only if the request has no other task and the task no other request. |
| TaskMap.SecondTaskBreaks | BunjangClone/Pods/Alamofire/Source/RequestTaskMap.swift:47-66 | The concrete failure: a second task for the same request leaves the first task pointing to it. |
| TaskMap.SameSize | BunjangClone/Pods/Alamofire/Source/RequestTaskMap.swift:89-113 | The dictionaries of a consistent map have equal sizes, so the count checks never fail. |
| TaskMap.StopsExactlyWhen | BunjangClone/Pods/Alamofire/Source/RequestTaskMap.swift:115-147 | On a consistent map, metrics or completion of a task reach a fatalError exactly when the task is unknown or the event came before, and removing an entry exactly when there is none. |
| TaskMap.RequestTaskMap.Count | BunjangClone/Pods/Alamofire/Source/RequestTaskMap.swift:89-94 | count passes its check on a consistent map and is the size of all three dictionaries. |
| TaskMap.RequestTaskMap.UpdateRequest | BunjangClone/Pods/Alamofire/Source/RequestTaskMap.swift:47-66 | The subscript by request, with its fatalError. |
| TaskMap.RequestTaskMap.UpdateTask | BunjangClone/Pods/Alamofire/Source/RequestTaskMap.swift:68-87 | The subscript by task, with its fatalError. |
| TaskMap.RequestTaskMap.DisassociateIfNecessaryAfterGatheringMetrics | BunjangClone/Pods/Alamofire/Source/RequestTaskMap.swift:115-125 | Removes the task if it was completed, otherwise records the metrics; a duplicate is a fatalError. |
| TaskMap.RequestTaskMap.DisassociateIfNecessaryAfterCompleting | BunjangClone/Pods/Alamofire/Source/RequestTaskMap.swift:127-147 | Removes the task if its metrics were gathered, otherwise records the completion; a duplicate is a fatalError. |
| TaskMap.SessionTasks.DidCreateTask | BunjangClone/Pods/Alamofire/Source/Session.swift:1084-1096 | Associates the new task with its request. |
| TaskMap.SessionTasks.DidGatherMetricsForTask | BunjangClone/Pods/Alamofire/Source/Session.swift:1218-1227 | Runs the waiting completion when the task was disassociated. |
| TaskMap.SessionTasks.DidCompleteTask | BunjangClone/Pods/Alamofire/Source/Session.swift:1229-1239 | Runs the completion at once or lets it wait. |
| SerializerPipeline.SinglePipeline | BunjangClone/Pods/Alamofire/Source/Request.swift:491-623 | Over every uncancelled run with any number of retries: at most one closure is pending; the serializer in flight has the number of completions for its index and was dispatched in the current attempt, so no closure of an earlier attempt survives a retry; and the completions are called together, one per handler in registration order, each with the response its closure was dispatched for, that of the last attempt. |
| SerializerPipeline.NothingStalls | BunjangClone/Pods/Alamofire/Source/Request.swift:567-600 | A run that owes nothing more has called its completions and is in the finished state. |
| SerializerPipeline.StepKeeps | BunjangClone/Pods/Alamofire/Source/ResponseSerialization.swift:215-275 | Every step, including each branch of the serializer closure's retry decision, keeps the invariant. |
| SerializerPipeline.FinalStates | BunjangClone/Pods/Alamofire/Source/Request.swift:50-64 | The whole table of transitions, pair by pair. Cancelled and finished are exactly the states without transitions; only the initial state may repeat; finished is reachable from every other state but these. |
| SerializerPipeline.RetriesAreGranted | BunjangClone/Pods/Alamofire/Source/Request.swift:491-509 | Over every run the retry count is the number of retries that the retrier granted, but for one that is about to start. |
| SerializerPipeline.FailuresAreOffered | BunjangClone/Pods/Alamofire/Source/ResponseSerialization.swift:240-247 | A failed attempt or a serializer error is put to the retrier before anything else changes. |
| SerializerPipeline.SuccessesGoOn | BunjangClone/Pods/Alamofire/Source/ResponseSerialization.swift:235-243 | Without a failure the request goes on to its next serializer, or is done; the retrier is not asked. |
| SerializerPipeline.LateSerializer | BunjangClone/Pods/Alamofire/Source/Request.swift:531-547 | A serializer added to a finished request reopens it; its completion is called alone and the request finishes again. |
| SerializerPipeline.Request.AppendResponseSerializer | BunjangClone/Pods/Alamofire/Source/Request.swift:531-547 | Appends, reopens a finished request, and tells whether processing must start again and whether resume is dispatched: for an initial or suspended request only. |
| SerializerPipeline.Request.NextResponseSerializer | BunjangClone/Pods/Alamofire/Source/Request.swift:552-564 | The serializer whose index is the number of completions, if there is one. |
| SerializerPipeline.Request.ProcessNextResponseSerializer | BunjangClone/Pods/Alamofire/Source/Request.swift:567-600 | Dispatches the next serializer, or clears everything, finishes and hands out the completions. |
| SerializerPipeline.Request.Finish | BunjangClone/Pods/Alamofire/Source/Request.swift:511-524 | Starts processing once; a second call while finishing does nothing. |
| SerializerPipeline.Request.ResponseSerializerDidComplete | BunjangClone/Pods/Alamofire/Source/Request.swift:605-608 | Records the completion and goes on. |
| SerializerPipeline.Request.PrepareForRetry | BunjangClone/Pods/Alamofire/Source/Request.swift:477-484 | Counts the retry and drops the completions of the failed attempt. |
| SerializerPipeline.Request.Reset | BunjangClone/Pods/Alamofire/Source/Request.swift:611-623 | Clears the finishing flag and the completions, and keeps the serializers. |
| StreamCompletion.CompletionsComeLast | BunjangClone/Pods/Alamofire/Source/Request.swift:1299-1391 | Over every run: numberOfExecutingStreams equals the number of outstanding parser invocations, completion events wait only while it is positive, no data event follows a completion, and no handler is called too often. |
| StreamCompletion.EverythingIsDelivered | BunjangClone/Pods/Alamofire/Source/ResponseSerialization.swift:1085-1095 | Once nothing is pending every handler got each of its data events and its completion exactly once. |
| StreamCompletion.DataStreamRequest.DidReceive | BunjangClone/Pods/Alamofire/Source/Request.swift:1299-1311 | The counter grows by the number of handlers that get the data. |
| StreamCompletion.DataStreamRequest.CompleteOrEnqueue | BunjangClone/Pods/Alamofire/Source/Request.swift:1372-1391 | Completes at once when no parser is under way, otherwise queues the event. |
| StreamCompletion.DataStreamRequest.UpdateAndCompleteIfPossible | BunjangClone/Pods/Alamofire/Source/ResponseSerialization.swift:1085-1095 | The last parser releases the queued events. |
| Multipart.EncodingIsWhole | BunjangClone/Pods/Alamofire/Source/MultipartFormData.swift:320-339 | Exactly when encode gives the body of section 5.1.1 of RFC 2046 for parts that earlier encodings may have marked: if and only if no part but the last already carries the final flag (each such flag adds the bytes of a closing boundary). |
| Multipart.FirstEncodingIsWhole | BunjangClone/Pods/Alamofire/Source/MultipartFormData.swift:320-339 | A single encoding of newly appended parts is that body: parts separated by the delimiter and closed by its final form. |
| Multipart.OpensWithDelimiter | BunjangClone/Pods/Alamofire/Source/MultipartFormData.swift:64-77 | The dash-boundary line of section 5.1.1 of RFC 2046: after a line end, the body opens with the delimiter that separates its parts. |
| Multipart.BoundaryBytes | BunjangClone/Pods/Alamofire/Source/MultipartFormData.swift:64-77 | The three boundary lines and the delimiter in bytes. |
| Multipart.ReusedFormIsWhole | BunjangClone/Pods/Alamofire/Source/MultipartFormData.swift:327-335 | After any sequence of appends and complete encodings, the next encoding is that body for what the parts still hold, if and only if no part was appended to a form that had already been encoded with parts in it. |
| Multipart.FlagsAfterUses | BunjangClone/Pods/Alamofire/Source/MultipartFormData.swift:327-328 | After such a sequence some part is marked as the end exactly when the form was encoded with parts in it, and a part before the last exactly when another part came after that. |
| Multipart.SecondEncodingIsLonger | BunjangClone/Pods/Alamofire/Source/MultipartFormData.swift:327-335 | The failing input: append, encode, append, encode. The first part comes back without its body, which was read, and with a closing boundary behind it, so the result is longer than the body for the two parts. |
| Multipart.BodyReadsBack | BunjangClone/Pods/Alamofire/Source/MultipartFormData.swift:64-77 | A reader that knows only the bytes of the standard gets the contents of all parts back from the body if and only if in every part the closing delimiter is the first one. |
| Multipart.EndsAtFirstMeans | BunjangClone/Pods/Alamofire/Source/MultipartFormData.swift:64-77 | For a boundary without CR that is the case exactly when CRLF--boundary does not occur in the part. |
| Multipart.PartReadsBack | BunjangClone/Pods/Alamofire/Source/MultipartFormData.swift:392-398 | Headers and body are recovered from a part whose header names have no colon and whose names and values have no CR. |
| Multipart.EncodingReadsBack | BunjangClone/Pods/Alamofire/Source/MultipartFormData.swift:320-398 | The part list is recovered from a single encoding when CRLF--boundary occurs in no part. |
| MultipartWriter.MultipartFormData.Encode | BunjangClone/Pods/Alamofire/Source/MultipartFormData.swift:320-339 | From wherever the body streams stand, and for any reads they make, it fails exactly when a stream breaks within what is read; otherwise it returns the encoding of the marked parts and leaves every stream where its reading ended. Without empty reads the parts are then left marked and without bodies, as Multipart.AfterUses says. |
| MultipartWriter.MultipartFormData.WriteEncodedData | BunjangClone/Pods/Alamofire/Source/MultipartFormData.swift:345-369 | From wherever the body streams stand, for any schedule of short and empty reads and writes, the output is exactly what encode returns, cut off at the space available; it fails exactly when an input or the output does, and then holds a prefix. |
| MultipartWriter.CompleteIfSpace | BunjangClone/Pods/Alamofire/Source/MultipartFormData.swift:485-501 | The output is complete exactly when the space was enough, although no error is reported otherwise. |
| MultipartWriter.TruncatedWithoutError | BunjangClone/Pods/Alamofire/Source/MultipartFormData.swift:485-501 | Two bytes offered to an output with space for one: no error, and only the first is written. |
| MultipartWriter.EncodeBodyStream | BunjangClone/Pods/Alamofire/Source/MultipartFormData.swift:400-423 | Collects what the stream delivers up to its end or to a read of no bytes, from any position, and fails exactly when the error comes first. |
| MultipartWriter.WriteBodyStream | BunjangClone/Pods/Alamofire/Source/MultipartFormData.swift:444-468 | Copies the same bytes to the output, through a buffer of any size, and leaves the stream at the same place. |
| MultipartWriter.SteadyExtent | BunjangClone/Pods/Alamofire/Source/MultipartFormData.swift:406-420 | A stream without empty reads is read to its end. |
| MultipartWriter.WriteBuffer | BunjangClone/Pods/Alamofire/Source/MultipartFormData.swift:485-501 | The buffered loop writes everything that fits, in any amounts the output accepts, some of them empty, and stops without an error at the end of the space. |
| MultipartWriter.WritePart | BunjangClone/Pods/Alamofire/Source/MultipartFormData.swift:427-432 | Initial boundary, headers, body, final boundary, in this order. |
| MultipartWriter.MultipartFormData.SetFlags | BunjangClone/Pods/Alamofire/Source/MultipartFormData.swift:327-328 | Marks the first and the last part and changes nothing else of what the next encoding finds. |

## Left out

- nanopb callbacks, extensions and pointer fields: they rest on user functions, on linked lists of
  extensions, or on the heap; descriptors with an extension placeholder are not well-formed here, so the
  search for one in `pb_decode_noinit` is not modelled.
- nanopb repeated fields of fixed count: the counters kept in locals of `pb_decode_noinit` are not modelled;
  every repeated field has a count in the struct.
- nanopb streams with user callbacks, and builds without 64-bit integers, with unpacked arrays or with
  16-bit sizes.
- nanopb error texts: a call reports success or failure; the encoder keeps only which kind of error was set
  first.
- Memory that no value covers: the tail of an array after its count, the bytes of a string after its
  terminator, absent optionals and the destination after a failed decode hold arbitrary data in C and are
  not compared.
- MessageDecoder.DecSubmessage: a submessage is decoded in a struct of its own and stored back, so aliasing
  between the parent struct and the submessage is not captured, and its contract says nothing about the
  partial contents that a failed submessage leaves in its slot (no other slot is touched); the array element
  written by an unpacked append is likewise stored when it is complete.
- FieldDecoders.DecString: the buffer is local and handed back as a value, so what earlier contents it had is
  not captured.
- MessageEncoder.Encode: sizes are unbounded numbers, so wrap-around of `size_t` is not captured; encodings of
  2^64 bytes and more are excluded, and the reading theorems exclude encodings of 2^32 bytes and more,
  because lengths are read as 32-bit varints.
- Varint32.ReadersAgree: limited to varints of at most ten bytes, where the 8-bit `bitpos` has not wrapped;
  Overflow.CanonicalAcceptance speaks of canonical encodings, not of padded ones.
- Canonical.EncodeThenDecode: singular fields without a has_ field have a zero default in a well-formed
  descriptor, as proto3 demands.
- Floating point: fixed32 and fixed64 fields are bit patterns.
- The extra entry points that only rename others: `pb_decode_nullterminated`, `pb_decode_bool` and
  `pb_encode_delimited`.
- Authentication.AuthenticationInterceptor.Adapt: whether a credential requires refresh, whether a request
  carries the current credential, and the clock are inputs of the section that reads them.
- Authentication.RunsAreSingleFlight: the authenticator answers each refresh at most once; an authenticator
  that answers twice breaks the source's own bookkeeping.
- Authentication: the calls through `URLSession` and dispatch queues; a queue is a sequence of closures, and a
  closure that loops over completions gives up its turn between two of them, which only adds interleavings.
- TaskMap.Rendezvous: a request is associated only when it has no task, which RetryTasks.RetriesFindNoTask proves
  of the session's own attempts; the variants for Linux and old watchOS, which do not gather metrics, are not
  modelled.
- RetryTasks.RetriesFindNoTask: an attempt creates at most one task, or fails without one; cancelled requests are
  not modelled.
- SerializerPipeline.SinglePipeline: serializers are registered before finish is first reached, and the
  request is not cancelled; responses and errors are reduced to the attempt they belong to.
- Layout.AddressesAreTrue: structs with statically allocated members; pointer, callback and fixed-count members
  are not modelled.
- StreamCompletion.CompletionsComeLast: no data arrives after the first completion was asked for; the bound
  output stream and automatic cancellation are not modelled.
- MultipartWriter.WriteBuffer: an output that accepts no byte, reports space and no error, forever, keeps the source
  in its loop; here a schedule of empty writes is finite.
- MultipartWriter.MultipartFormData.Encode: a stream that an encoding has closed goes on from where reading ended,
  which matters only after an empty read; two parts over one stream, file checks, MIME types, random boundaries
  and the error kept from an earlier append are not modelled.
- Multipart.PartReadsBack: header names with a colon and header text with a CR are excluded, as HTTP does.
- Header collections, parameter encoding, redirect and cache handlers, server trust, reachability, event
  monitors and the app's own view code: plumbing over system frameworks, or easy members.
