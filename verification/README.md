# Verified models of nanopb, the Lemon parser driver, the list editor and the photo picker

This project models four parts of the repository in Dafny and proves what they are for.

**nanopb** (`text/Pods/nanopb`) interprets field descriptors to write and read the Protocol
Buffers wire format. `Wire`, `Schema`, `Encoding` and `Decoding` say what goes over the
wire, as functions from descriptors, messages and bytes; a decoder's result is the value and
the bytes left over, or a failure that remembers whether the stream merely ran out. `Output`,
`Encoder`, `Input`, `Decoder`, `FieldIter`, `RequiredMask` and `PointerArray` are the C
routines themselves: stream and iterator objects changed in place, loops, nested substreams,
the two-pass encoder. Each is proved to compute exactly the corresponding function, with the
same verdict, message and bytes left over. On the functions stand the laws: a message goes
through, and `Defaults` says exactly when it is unchanged (`RoundTrip`, `Reencoding`,
`BareDescriptors`); decoding on top of a message is merging (`Merging`, `Laws`, field by
field in `FieldLaws`); unknown fields are transparent, and sender and receiver may have
different fields (`Evolution`); fields come in any order, and
`Ordering` says exactly which neighbours may change places; the packed and unpacked forms of
an array agree, but for one case; the 32-bit varint decoder is the 64-bit one modulo 2^32
(`Wire`); and any accepted bytes give a well-typed message (`TypeSafety`). `Format` ties both
sides to the published wire format: which bytes are written, and which are accepted and as
what, in base 128, in ranges of bits and in lengths. `EndToEnd` puts the two C sides back to
back.

**The Lemon driver** (`parse.c` of SQLCipher) is a push-down automaton over generated
tables. `LrTables` states a certificate on the tables alone (for every state, which states
can lie below it) that implies the asserts of the driver, and `LrRanks` ranks that every
reduction lowers; `LrDriver` is the driver on its fixed stack, proved sound and terminating
for every token sequence under any such tables. Ghost trees record what each stack entry was
built from. `tools/certificate.py` computes certificate and ranks from the tables in a
`parse.c` and prints the places where the conditions fail.

**RZRichTextView** keeps lists by putting markers at the head of paragraphs. `Paragraphs`
splits text, `Renumbering` prints the markers 1, 2, 3 of every run, `Restyling` replaces the
selected paragraphs and carries the selection over, `Undo` is the bounded pair of undo and
redo stacks, shown to be a timeline with a cursor. Attributed text is a sequence of
characters that carry a list style.

**The photo picker** keeps a selection under limits per media kind while cells are tapped
and albums are switched. `Picker` proves what every such session keeps.

Where the code departs from what one would expect, the model follows the code, gives the
input and proves the exact condition:

- the 32-bit varint decoder accepts some numbers above 32 bits (`Wire.Varint32AcceptsOverflow`,
  condition in `Wire.SameValueExactly`), and of a varint with more than 37 bytes it reads late
  bytes into low bits (`Format.Varint32ComesRound`, up to there `Format.Varint32Exact`);
- a string without a NUL in its buffer is encoded but never decoded
  (`Scalars.UnterminatedString`, the complement of `Scalars.StringRoundTrip`);
- a zero singular field with a stored default arrives as that default
  (`Reencoding.OmittedBecomesDefault`, condition in `RoundTrip.MessageRoundTrip`);
- an empty packed block for an array of fixed count makes a message invalid, while no entry
  at all does not (`Laws.EmptyBlockRejected`, condition in `Laws.FormsAgreeExactly`);
- switching the list style of a text whose last paragraph is a bare marker never returns
  (`Restyling.BareMarkerEndless`, condition in `Restyling.ReturnsExactly`);
- assets that are neither image nor video let the kinds mix (`Picker.OtherKindMixes`,
  condition in `Picker.MixesExactly`).

An empty message type answers to tag 0, because the terminator of its descriptor carries
that tag, and reads a bool for it; `Decoding.DecField` and `Decoder.DecodeField` keep this.
Only the `PB_FIELD_32BIT` build is modelled: in the 8-bit and 16-bit builds `PB_SIZE_MAX` and
the offset of `bytes` in `pb_bytes_array_t` are others, and with them the size checks and the
mark of a union member. `size_t` has 64 bits and `uint_fast8_t` has 8.

## Model

| member | source | states |
|---|---|---|
| Wire.Varint64RoundTrip | text/Pods/nanopb/pb_decode.c:255-276 | every uint64 encoded by pb_encode_varint takes at most ten bytes and is read back by pb_decode_varint with exactly those bytes consumed, whatever follows |
| Wire.Varint32RoundTrip | text/Pods/nanopb/pb_decode.c:187-252 | every uint32 is read back by pb_decode_varint32 with exactly its bytes consumed |
| Wire.Varint32Negative | text/Pods/nanopb/pb_decode.c:210-237 | the ten-byte encoding of every negative int32 passes the sign-extension check and gives its two's complement |
| Wire.Varint32RefinesVarint64 | text/Pods/nanopb/pb_decode.c:187-276 | whenever both decoders succeed on the same bytes they leave the same rest and the 32-bit result is the 64-bit one modulo 2^32 |
| Wire.SameValueExactly | text/Pods/nanopb/pb_decode.c:187-276 | whenever both decoders accept the same bytes, the values are the same if and only if no byte of the varint sets a bit at position 32 or above: the byte at bit 28 has a payload below 16 and every later byte has none |
| Wire.Varint32AcceptsOverflow | text/Pods/nanopb/pb_decode.c:212-242 | six bytes outside that condition: they encode 2^32, and the 32-bit decoder accepts them as 0 |
| Wire.Varint64Or | text/Pods/nanopb/pb_decode.c:255-276 | OR-ing the shifted and truncated payload into the accumulator adds it, with one bit kept at position 63 |
| Wire.Varint32Or | text/Pods/nanopb/pb_decode.c:231-234 | the same for 32 bits, with four bits kept at position 28 |
| Wire.FixedRoundTrip | text/Pods/nanopb/pb_decode.c:1293-1325 | fixed32 and fixed64 values come back from their little-endian bytes |
| Wire.ZigZagRoundTrip | text/Pods/nanopb/pb_encode.c:630-639 | zigzag and its inverse in pb_decode_svarint undo each other on every int64, the minimum included |
| Wire.Varint32Stable | text/Pods/nanopb/pb_decode.c:187-252 | on a longer input the decoder does the same and leaves the extra bytes, and a rejection that was not for lack of bytes stays a rejection |
| Wire.SkipStable | text/Pods/nanopb/pb_decode.c:278-331 | the same for skipping a field of any wire type; how much is skipped is in Format.SkipExact |
| Format.VarintFormat | text/Pods/nanopb/pb_encode.c:608-628 | a varint is base 128, lowest digit first, with the high bit on every byte but the last and no byte more than needed |
| Format.FixedFormat | text/Pods/nanopb/pb_encode.c:641-666 | a fixed-width word is its four or eight bytes, lowest first |
| Format.ZigZagFormat | text/Pods/nanopb/pb_encode.c:630-639 | 0, -1, 1, -2 become 0, 1, 2, 3, for every int64 |
| Format.Varint64Exact | text/Pods/nanopb/pb_decode.c:255-276 | on any bytes: success exactly when one of the first ten has no high bit, and the value is the number in base 128 modulo 2^64 |
| Format.Varint32Exact | text/Pods/nanopb/pb_decode.c:187-252 | on any varint of at most 37 bytes: accepted exactly when a fifth byte that ends it is below 16 and every later byte is padding or sign extension; the value is that of the first five bytes modulo 2^32 |
| Format.Varint32ComesRound | text/Pods/nanopb/pb_decode.c:203-246 | a varint of 38 bytes outside that bound: 37 bytes of padding and a 1 are read as 8, because the 8-bit position has come round to 3 |
| Format.TypeTable | text/Pods/nanopb/pb.h:150-165 | the packable types are those up to PB_LTYPE_LAST_PACKABLE and exactly those whose wire type is not 2; wire type 0, 1 and 5 each for exactly their types |
| Format.SkipExact | text/Pods/nanopb/pb_decode.c:278-331 | what is skipped on any bytes, by the number of the wire type: a varint to its last byte, eight bytes for 1, four for 5, prefix and announced length for 2; every other type is refused |
| Format.UnsignedExact | text/Pods/nanopb/pb_decode.c:1376-1398 | an unsigned field of each size accepts exactly the numbers below 2 to the power of its bits, unchanged |
| Format.SignedExact | text/Pods/nanopb/pb_decode.c:1339-1374 | a signed field reads 64 bits for size 8 and the low 32 otherwise, and accepts exactly its range |
| Format.ZigZagExact | text/Pods/nanopb/pb_decode.c:1400-1422 | a zigzag field accepts exactly the numbers in the range of its size |
| Format.IntegerRefused | text/Pods/nanopb/pb_decode.c:1339-1422 | other sizes are refused, and so is a varint that does not end |
| Format.BoolExact | text/Pods/nanopb/pb_decode.c:1328-1337 | a bool is true for every number but zero |
| Format.WordExact | text/Pods/nanopb/pb_decode.c:1293-1325 | four or eight bytes, lowest first, or too few bytes |
| Format.BlobExact | text/Pods/nanopb/pb_decode.c:1441-1564 | bytes are accepted exactly when they leave room for their length field, a string when it leaves room for its NUL, fixed-length bytes in their length or empty, which becomes zeros |
| Format.ZeroItemExact | text/Pods/nanopb/pb_encode.c:240-337 | a value passes the zero check exactly when its payload would be nothing but zero bytes |
| Format.ZeroMsgExact | text/Pods/nanopb/pb_encode.c:240-337 | a message passes the zero check exactly when pb_encode writes nothing for it, at any depth |
| Scalars.ScalarRoundTrip | text/Pods/nanopb/pb_decode.c:1328-1564 | every value of every non-message field type (1, 2, 4 and 8 byte integers through their range checks, bool, fixed, bytes, string, fixed-length bytes) is read back from what its encoder wrote, with exactly its bytes consumed |
| Scalars.VarintRoundTrip | text/Pods/nanopb/pb_decode.c:1339-1374 | sign-extended integers of each size survive truncation and the clamping check |
| Scalars.UvarintRoundTrip | text/Pods/nanopb/pb_decode.c:1376-1398 | the same for unsigned integers |
| Scalars.SvarintRoundTrip | text/Pods/nanopb/pb_decode.c:1400-1422 | the same for zigzag integers |
| Scalars.StrLenExact | text/Pods/nanopb/pb_encode.c:875-899 | the length taken for a string is the place of its first NUL, or data_size without one |
| Scalars.StringRoundTrip | text/Pods/nanopb/pb_decode.c:1481-1517 | a string with its NUL inside data_size comes back as the characters before the NUL |
| Scalars.UnterminatedString | text/Pods/nanopb/pb_encode.c:875-899 | a string that fills its buffer without a NUL is encoded, and what was encoded is always rejected by the receiver's own size check |
| Merging.MergeIntoDefault | text/Pods/nanopb/pb_decode.c:839-924 | merging any message without overfull arrays into the default message gives what its receiver holds: the values written, and defaults for the rest |
| Defaults.ZeroItemIsDefault | text/Pods/nanopb/pb_encode.c:240-337 | without a stored default, what passes the proto3 zero check, submessages included, is what pb_message_set_to_defaults sets |
| Defaults.UnwrittenIsDefault | text/Pods/nanopb/pb_encode.c:341-427 | a field the encoder leaves out is at the value the receiver assumes if and only if it is not a singular field whose zero differs from its default |
| Defaults.MsgArrives | text/Pods/nanopb/pb_encode.c:355-359 | for every descriptor and message the receiver holds the canonical form if and only if every singular field left out, at any depth of what is written, holds its default |
| Defaults.ZeroDefaultsKept | text/Pods/nanopb/pb_encode.c:355-359 | without stored defaults on singular fields that is so for every message |
| RoundTrip.ItemDecodes | text/Pods/nanopb/pb_decode.c:1519-1541 | one encoded item decoded on top of any previous item is their merge, recursively for submessages |
| RoundTrip.PackedDecodes | text/Pods/nanopb/pb_decode.c:430-442 | the packed loop on the encoded entries appends exactly them, or fails exactly when they exceed array_size |
| RoundTrip.ValDecodes | text/Pods/nanopb/pb_decode.c:946-1024 | any field the encoder writes, decoded from any state between fields and with any bytes behind it, merges that field and goes on with those bytes |
| RoundTrip.MsgDecodes | text/Pods/nanopb/pb_decode.c:928-1076 | pb_decode_noinit of an encoded message, on top of any message, is the merge of the two, required and fixed-count checks passed |
| RoundTrip.EncodableFits | text/Pods/nanopb/pb_encode.c:156-160 | what can be encoded has no array beyond array_size at any depth |
| RoundTrip.MessageReceived | text/Pods/nanopb/pb_decode.c:1078-1090 | whatever pb_encode writes below 2^32 bytes, for every well-formed descriptor and message, pb_decode reads in full; the receiver has what was written and the defaults for what was not |
| RoundTrip.MessageRoundTrip | text/Pods/nanopb/pb_decode.c:1078-1090 | it is the message encoded, with absent optional fields at their defaults, if and only if every singular field left out holds its default; always, without stored defaults on singular fields |
| Reencoding.ScalarSame | text/Pods/nanopb/pb_encode.c:769-913 | the value a receiver holds for a scalar has the encoding and the zero check of the value sent |
| Reencoding.ZeroMsgSame | text/Pods/nanopb/pb_encode.c:240-337 | the proto3 zero check does not distinguish a message from what its receiver holds |
| Reencoding.NonzeroMsg | text/Pods/nanopb/pb_encode.c:240-337 | what does not pass the zero check does not pass it at the receiver either |
| Reencoding.FromGrows | text/Pods/nanopb/pb_encode.c:528-550 | what a receiver sends on is the bytes it got, or longer, or not encodable; which of them is decided by the defaults of the singular fields left out |
| Reencoding.SameBytes | text/Pods/nanopb/pb_encode.c:528-550 | decoding what pb_encode wrote and encoding it again gives the same bytes if and only if the default of every singular field left out passes the zero check |
| BareDescriptors.BareReceiver | text/Pods/nanopb/pb_encode.c:355-359 | a receiver without stored defaults on singular fields reads every message in canonical form, whatever defaults the sender has |
| BareDescriptors.ImageDeterminesMessage | text/Pods/nanopb/pb_encode.c:528-550 | two messages have the same encoding if and only if they have the same canonical form, for every descriptor |
| Reencoding.OmittedBecomesDefault | text/Pods/nanopb/pb_encode.c:355-359 | a singular uint32 with default 5: its zero is left out and arrives as 5, so the condition in RoundTrip.MessageRoundTrip is needed |
| TypeSafety.ScalarGood | text/Pods/nanopb/pb_decode.c:1328-1564 | every scalar decoder yields a value of its field's type that can be encoded, from any bytes |
| TypeSafety.MsgGood | text/Pods/nanopb/pb_decode.c:928-1076 | decoding any bytes on top of a well-typed message keeps it well typed and encodable: integers in range, strings terminated, arrays within their sizes, one member per union |
| TypeSafety.DecodedIsTyped | text/Pods/nanopb/pb_decode.c:1078-1090 | whatever bytes pb_decode accepts, the message is well typed and pb_encode has an encoding for it |
| Reencoding.DecodeEncodeDecode | text/Pods/nanopb/pb_decode.c:1078-1090 | from any accepted bytes: encoding the result and decoding again succeeds, and canonicalises if and only if every singular field left out holds its default |
| Laws.FieldStable | text/Pods/nanopb/pb_decode.c:946-1024 | one field decodes the same with more bytes behind it, and a rejection stays one |
| Laws.LoopConcat | text/Pods/nanopb/pb_decode.c:946-1024 | reading a + b is reading b from the state a left, for all inputs a the loop reads to their end; a rejected a makes a + b rejected |
| Laws.UnknownTransparent | text/Pods/nanopb/pb_decode.c:960-989 | inserting any complete field with an unknown tag at a field boundary changes neither verdict nor message; for what an encoder writes see Evolution |
| Evolution.SkipsPayload | text/Pods/nanopb/pb_encode.c:668-705 | whatever is written for a value of any type, a reader that knows only the wire type announced for it finds its end |
| Evolution.ValSkipped | text/Pods/nanopb/pb_decode.c:960-989 | whatever the encoder writes for a field, arrays and submessages included, a receiver without that field passes over |
| Evolution.UnknownValTransparent | text/Pods/nanopb/pb_decode.c:960-989 | so it may stand at any field boundary of a message without changing verdict, message or rest |
| Evolution.FieldsDropped | text/Pods/nanopb/pb_decode.c:928-1076 | a receiver that lacks any of the sender's fields, decoding on top of any message, merges exactly the fields it has |
| Evolution.NothingKnown | text/Pods/nanopb/pb_encode.c:668-705 | a reader that knows no field walks every encoding to its end |
| Evolution.FieldsAdded | text/Pods/nanopb/pb_encode.c:528-550 | a descriptor with more fields encodes a message in which those are left out exactly as the one without them |
| Evolution.NewReceiver | text/Pods/nanopb/pb_decode.c:1078-1090 | what an old sender writes, a receiver with more fields reads in full, the new fields at their defaults |
| Laws.LoopSeen | text/Pods/nanopb/pb_decode.c:946-1024 | which required fields were met before has no influence on the loop but for that record |
| Laws.LoopClosed | text/Pods/nanopb/pb_decode.c:946-958 | a zero tag ends the message: bytes appended behind it change nothing and are left over |
| Laws.ZeroTagEnds | text/Pods/nanopb/pb_decode.c:946-958 | a zero byte at any field boundary ends the message: the checks are made there and the rest is left over |
| Laws.MergeLaw | text/Pods/nanopb/pb_decode.h:70-80 | for every input a and b and every descriptor without fixed-count arrays: if the loop reads a to its end, decoding a + b is decoding a and then b into the same message, and each required field may come in either; if a ends at a zero tag, b is left over; if a is rejected, so is a + b |
| Laws.MergeInTwoCalls | text/Pods/nanopb/pb_decode.h:70-80 | where nothing is required either, decoding a + b is one call of pb_decode_noinit after the other |
| Laws.SubmessageInPieces | text/Pods/nanopb/pb_decode.c:1519-1541 | a singular submessage may come in pieces: the field with body a and again with body b is the field with body a + b, in every decoder state and whatever follows |
| Laws.EncodedMerge | text/Pods/nanopb/pb_decode.h:70-80 | if a is the encoding of a message, the first of the two steps is the merge with that message, and if it fails, so does the whole |
| Ordering.KnownLocal | text/Pods/nanopb/pb_decode.c:991-1024 | a known field that is accepted in one state is accepted, and does the same, in every state with the same value for that field and, for a fixed-count array, the same array in progress |
| Ordering.FieldsCommute | text/Pods/nanopb/pb_decode.c:946-1024 | two neighbouring fields of different tags, known or not, that are neither members of one union nor both fixed-count arrays may change places, whatever follows |
| Ordering.CommuteExactly | text/Pods/nanopb/pb_decode.c:946-1024 | two fields of different tags, each accepted in the state, are accepted in both orders with one outcome for all continuations if and only if they are not members of one union and not both fixed-count arrays |
| Ordering.SwapTransparent | text/Pods/nanopb/pb_decode.c:946-1076 | swapping two such fields at any field boundary of a message changes neither verdict nor message |
| Ordering.AnyOrder | text/Pods/nanopb/pb_decode.c:946-1024 | any number of such fields, each accepted in the state, give the same outcome in every permutation, whatever follows them |
| Laws.ScalarItems | text/Pods/nanopb/pb_decode.c:424-464 | storing scalar entries fails exactly when the total exceeds array_size and otherwise puts each in its place |
| Laws.PutAllPlaces | text/Pods/nanopb/pb_decode.c:424-464 | entries stored from place n on stand there, what lies before and behind them is untouched |
| Laws.PackedAgreesWithUnpacked | text/Pods/nanopb/pb_decode.c:424-464 | for arrays with a count and of fixed count: one packed block and the same values, at least one, sent one by one have the same outcome in every decoder state, a failure exactly on overflow or on an unfinished other array, otherwise the entries in their places |
| Laws.FormsAgreeExactly | text/Pods/nanopb/pb_decode.c:991-1009 | for every list of values the two forms agree in every state if and only if there is a value or the array is not of fixed count |
| Laws.EmptyBlock | text/Pods/nanopb/pb_decode.c:991-1009 | per state: an empty packed block changes nothing if and only if entering the field changes nothing |
| Laws.EmptyBlockRejected | text/Pods/nanopb/pb_decode.c:1026-1031 | a message that is one empty block for a fixed-count array is rejected, while the empty message without required fields decodes |
| Laws.UnfinishedRejected | text/Pods/nanopb/pb_decode.c:991-1013 | while one fixed-count array is unfinished another may not begin |
| Laws.FixedCountExact | text/Pods/nanopb/pb_decode.c:1026-1031 | a block for a fixed-count array is accepted exactly when it has as many entries as the array, which then are the array |
| FieldLaws.LoopMarks | text/Pods/nanopb/pb_decode.c:1015-1020 | after the loop exactly those required fields are marked whose tag the loop met on the wire |
| FieldLaws.ReqIndexCounts | text/Pods/nanopb/pb_common.c:65-70 | the index the iterator keeps is the number of required fields passed |
| FieldLaws.RequiredExact | text/Pods/nanopb/pb_decode.c:1026-1073 | once the loop has read the input, decoding succeeds if and only if the last fixed-count array is complete and every one of the first 64 required fields had its tag on the wire |
| FieldLaws.MergeFieldwise | text/Pods/nanopb/pb_decode.c:406-483 | a merge decides each field by its own two values: a written field takes their merge, another member of a written union is deselected, everything else stays |
| FieldLaws.MergeSucceeds | text/Pods/nanopb/pb_decode.c:424-464 | a merge fails exactly when some written field does not fit on its own |
| FieldIter.Iter.constructor | text/Pods/nanopb/pb_common.c:8-18 | the cursor starts at the first field with its members in step |
| FieldIter.Iter.Next | text/Pods/nanopb/pb_common.c:20-76 | one step of the cycle; data pointer, size pointer and required index stay the prefix sums of the position; false exactly on wrapping |
| FieldIter.LayoutFound | text/Pods/nanopb/pb.h:391-436 | if the descriptor was filled in from a struct by the macros, the prefix sums are the offsets of its members and of their has_, count or which_ members |
| FieldIter.Iter.PointsAtMember | text/Pods/nanopb/pb_common.c:41-74 | so both pointers of the iterator are the addresses of the member under the cursor |
| FieldIter.Iter.Find | text/Pods/nanopb/pb_common.c:78-95 | ends from any position, true exactly when some field has the tag, at the field a scan from the start finds, otherwise back where it was |
| FieldIter.Iter.SearchOn | text/Pods/nanopb/pb_common.c:82-94 | the cyclic search visits every field before it gives up |
| FieldIter.Iter.CountRequired | text/Pods/nanopb/pb_decode.c:1033-1049 | the seek to the end counts the required fields of the descriptor from wherever the loop stopped |
| FieldIter.UnionShares | text/Pods/nanopb/pb_common.c:44-50 | all members of a union have the data and which_ pointers of its first member |
| FieldIter.DataOrdered | text/Pods/nanopb/pb_common.c:41-74 | outside unions the storage of different fields does not overlap |
| RequiredMask.Mark | text/Pods/nanopb/pb_decode.c:1015-1020 | setting a bit with shift and OR adds exactly that field to the set held in fields_seen |
| RequiredMask.LowOnesExact | text/Pods/nanopb/pb_decode.c:1062-1070 | a word equals 2^r - 1 if and only if its lowest r bits are set and no other |
| RequiredMask.AllSeen | text/Pods/nanopb/pb_decode.c:1051-1072 | the word and remainder comparison passes if and only if each of the first n required fields was seen, for every n up to 64 |
| Output.Both | text/Pods/nanopb/pb_encode.c:103-124 | two writes in a row are one write of the concatenation, in success, in failure and in what a failure may have touched |
| Output.OStream.Copy | text/Pods/nanopb/pb_encode.c:74-84 | buf_write splices the data at the position and leaves the rest of the buffer alone |
| Output.OStream.Write | text/Pods/nanopb/pb_encode.c:103-124 | pb_write succeeds exactly when the data fits, then exactly the data is in the buffer; a sizing stream only counts |
| Encoder.VarintBuffer | text/Pods/nanopb/pb_encode.c:608-628 | the ten-byte buffer never overflows and ends up holding the varint |
| Encoder.EncodeVarint | text/Pods/nanopb/pb_encode.c:608-628 | pb_encode_varint puts exactly the varint on the stream or fails for lack of room |
| Encoder.EncodeFixed | text/Pods/nanopb/pb_encode.c:641-667 | the same for little-endian words |
| Encoder.EncodeNumber | text/Pods/nanopb/pb_encode.c:769-850 | pb_enc_bool to pb_enc_fixed64, the invalid data_size error included |
| Encoder.EncodeBytes | text/Pods/nanopb/pb_encode.c:852-913 | pb_enc_bytes, pb_enc_string and pb_enc_fixed_length_bytes, their size errors included |
| Encoder.StringLength | text/Pods/nanopb/pb_encode.c:875-899 | the loop finds the NUL or stops at data_size |
| Encoder.GetEncodedSize | text/Pods/nanopb/pb_encode.c:567-576 | the sizing pass succeeds exactly when the message can be encoded and yields the length of the encoding (as a size_t), through submessages and packed arrays |
| Encoder.WriteBody | text/Pods/nanopb/pb_encode.c:740-765 | the second pass of a submessage writes the body within its announced size; an assertion inside shows "submsg size changed" unreachable for bodies below 2^64 bytes |
| Encoder.EncodeSubmessage | text/Pods/nanopb/pb_encode.c:717-765 | length prefix and body, on sizing and real streams alike |
| Encoder.PackedSize | text/Pods/nanopb/pb_encode.c:169-189 | the computed or counted size of a packed block is the length of its entries |
| Encoder.EncodePackedArray | text/Pods/nanopb/pb_encode.c:162-205 | the packed form of an array: tag, size, entries, and nothing else |
| Encoder.EncodeArray | text/Pods/nanopb/pb_encode.c:147-236 | empty, overfull, packed and unpacked arrays |
| Encoder.EncodeField | text/Pods/nanopb/pb_encode.c:341-427 | which fields are written at all, and how; that a reader finds the end of each by its wire type is in Evolution.ValSkipped |
| Encoder.EncodeMessage | text/Pods/nanopb/pb_encode.c:528-550 | pb_encode succeeds exactly when the message has an encoding that fits, then exactly it is on the stream, readable to its end even for a reader without descriptor (Evolution.NothingKnown); otherwise nothing outside the room left was touched; one contract for sizing and writing |
| Encoder.EncodeToBuffer | text/Pods/nanopb/pb_encode.c:86-101 | encoding into a buffer of a given capacity succeeds exactly when the encoding exists and is no longer than it, and yields it |
| Input.IStream.Read | text/Pods/nanopb/pb_decode.c:102-137 | pb_read takes exactly the bytes asked for, keeps position + bytes_left, and changes nothing when there are too few |
| Input.IStream.ReadByte | text/Pods/nanopb/pb_decode.c:141-158 | one byte, bytes_left strictly smaller |
| Input.DecodeVarint64 | text/Pods/nanopb/pb_decode.c:255-276 | the loop of shifts and ORs computes the 64-bit varint function, conserves the stream's end and terminates by bytes_left |
| Input.DecodeVarint32 | text/Pods/nanopb/pb_decode.c:187-252 | the same for the 32-bit decoder with its overflow and sign-extension checks and its 8-bit position counter |
| Input.SkipField | text/Pods/nanopb/pb_decode.c:278-331 | pb_skip_field skips exactly one value of the wire type, of the length in Format.SkipExact, or fails |
| Input.MakeSubstream | text/Pods/nanopb/pb_decode.c:372-385 | the substream holds exactly the announced block, strictly shorter than the parent was; the parent keeps what lies behind |
| Input.CloseSubstream | text/Pods/nanopb/pb_decode.c:387-400 | closing always succeeds on a buffer and leaves the parent at the block's end, however much of it was read |
| Decoder.DecodeInteger | text/Pods/nanopb/pb_decode.c:1339-1422 | the three integer decoders with their range checks |
| Decoder.DecodeWord | text/Pods/nanopb/pb_decode.c:1293-1337 | bool and fixed-width decoders, the bytes put together from the highest down |
| Decoder.DecodeByteArray | text/Pods/nanopb/pb_decode.c:1441-1479 | pb_dec_bytes on a static field with its size errors |
| Decoder.DecodeText | text/Pods/nanopb/pb_decode.c:1481-1517 | pb_dec_string with its size error and the 32-bit wrap of size + 1 |
| Decoder.DecodeFixedBytes | text/Pods/nanopb/pb_decode.c:1543-1564 | pb_dec_fixed_length_bytes, an empty string standing for zeros |
| Decoder.DecodeBytes | text/Pods/nanopb/pb_decode.c:1441-1564 | the three length-prefixed decoders as one, by field type |
| Decoder.DecodeSubmessage | text/Pods/nanopb/pb_decode.c:1519-1541 | open, decode, close: the parent advances by exactly prefix and length, and the recursion strictly decreases bytes_left |
| Decoder.DecodePackedItems | text/Pods/nanopb/pb_decode.c:430-447 | the packed loop on its substream, overflow included |
| Decoder.DecodeArray | text/Pods/nanopb/pb_decode.c:424-464 | both forms of an array field |
| Decoder.DecodeValue | text/Pods/nanopb/pb_decode.c:406-483 | decode_static_field for required, optional, repeated and oneof fields; a oneof deselects the other members of its union |
| Decoder.EnterField | text/Pods/nanopb/pb_decode.c:991-1020 | the fixed-count and fields_seen bookkeeping before a field |
| Decoder.DecodeField | text/Pods/nanopb/pb_decode.c:946-1024 | a known field is decoded, an unknown one skipped, through the cyclic search |
| Decoder.DecodeFields | text/Pods/nanopb/pb_decode.c:946-1024 | the whole loop reads what the specification reads, stops at a zero tag, keeps the stream's end, terminates by bytes_left |
| Decoder.FinalChecks | text/Pods/nanopb/pb_decode.c:1026-1073 | the checks after the loop pass if and only if the last fixed-count array is complete and each of the first 64 required fields was on the wire |
| Decoder.DecodeMessage | text/Pods/nanopb/pb_decode.c:928-1076 | pb_decode_noinit has the verdict, message and rest of the specification for every input |
| Decoder.SetFieldToDefault | text/Pods/nanopb/pb_decode.c:839-909 | one field is set to its default: flag, count or which_ member cleared, data from the submessage, the stored default or zeros |
| Decoder.SetToDefaults | text/Pods/nanopb/pb_decode.c:911-922 | the walk over the iterator sets every field |
| Decoder.DefaultExact | text/Pods/nanopb/pb_decode.c:839-924 | what each kind of field then holds: optional fields absent, arrays with a count empty, unions without member, stored defaults of every type in place |
| Decoder.DecodeBuffer | text/Pods/nanopb/pb_decode.c:1078-1090 | pb_decode on a buffer, from the default message |
| PointerArray.SizesAccepted | text/Pods/nanopb/pb_decode.c:490-522 | the guard accepts exactly the nonzero sizes whose product is at most the maximum size_t |
| PointerArray.Grown | text/Pods/nanopb/pb_decode.c:624-636 | the guessed allocation is larger than before and at most PB_SIZE_MAX |
| PointerArray.GrownExact | text/Pods/nanopb/pb_decode.c:624-636 | the guess is the number of entries the bytes left can hold, rounded up, unless that would pass the limit; then it is one |
| PointerArray.Reserve | text/Pods/nanopb/pb_decode.c:620-641 | the allocation step leaves room for one more entry within PB_SIZE_MAX, or the allocator refused |
| PointerArray.GrowTurn | text/Pods/nanopb/pb_decode.c:610-651 | one turn keeps size <= allocated_size <= PB_SIZE_MAX, writes its entry below the allocation and consumes bytes |
| PointerArray.DecodeGrowing | text/Pods/nanopb/pb_decode.c:598-655 | throughout the loop these bounds hold, and unless the allocator refuses the outcome is that of an array of PB_SIZE_MAX entries |
| EndToEnd.SendAndReceive | text/Pods/nanopb/pb_encode.c:528-550 | the two C sides back to back: sending succeeds exactly when the encoding fits the buffer; then the receiver has the message, canonical exactly when every singular field left out holds its default |
| LrTables.ReduceReady | text/Pods/WCDBOptimizedSQLCipher/parse.c:2241-2283 | no reduction the driver makes pops past the base, a pending one pops at least its own entry, and its goto is in the tables |
| LrTables.ReduceKeeps | text/Pods/WCDBOptimizedSQLCipher/parse.c:3955-3972 | a reduction keeps the stack invariant, and accepting leaves exactly the base |
| LrTables.ShiftKeeps | text/Pods/WCDBOptimizedSQLCipher/parse.c:1857-1892 | a shift keeps the stack invariant, overflow included |
| LrTables.ActionsComplete | text/Pods/WCDBOptimizedSQLCipher/parse.c:4089-4130 | no action but shift, shift-reduce, reduce and error ever comes up |
| LrTables.LookupExact | text/Pods/WCDBOptimizedSQLCipher/parse.c:1721-1779 | a lookup gives the entry of the token where the state has one, else that of its fallback, else that of the wildcard for a token that is not 0, else the default |
| LrTables.TinyCertified | text/Pods/WCDBOptimizedSQLCipher/parse.c:1721-1812 | the certificate's conditions can be met, by a grammar of one rule |
| LrRanks.ExposedFalls | text/Pods/WCDBOptimizedSQLCipher/parse.c:3955-3972 | whatever state a reduction exposes, the entries it takes pay for the rank of the entry it puts there |
| LrRanks.ReduceFalls | text/Pods/WCDBOptimizedSQLCipher/parse.c:3955-3972 | every reduction that leaves the stack above its base lowers the measure of the stack, for every lookahead |
| LrRanks.FinalTurn | text/Pods/WCDBOptimizedSQLCipher/parse.c:4089-4201 | the chain of reductions on a token is finite, and ends in a shift, an acceptance, a syntax error or an overflow |
| LrRanks.TinyRanked | text/Pods/WCDBOptimizedSQLCipher/parse.c:1721-1812 | the conditions on the ranks can be met, by a grammar of one rule |
| LrDriver.FoldLeaves | text/Pods/WCDBOptimizedSQLCipher/parse.c:3955-3968 | putting the top entries under one node keeps the tokens below the stack |
| LrDriver.FoldLabelled | text/Pods/WCDBOptimizedSQLCipher/parse.c:3955-3968 | the node has as many children as its rule has symbols, and every entry still carries the symbol of its tree |
| LrDriver.Parser.constructor | text/Pods/WCDBOptimizedSQLCipher/parse.c:1516-1543 | the parser starts at the base in state 0 |
| LrDriver.Parser.FindShiftAction | text/Pods/WCDBOptimizedSQLCipher/parse.c:1721-1779 | the lookup loop ends and gives what the tables say, read off them directly: own entry, fallback entry, wildcard, default; a pending reduction is returned as it is |
| LrDriver.Parser.FindReduceAction | text/Pods/WCDBOptimizedSQLCipher/parse.c:1784-1812 | the goto entry of the exposed state, and the asserts of the code hold |
| LrDriver.Parser.Shift | text/Pods/WCDBOptimizedSQLCipher/parse.c:1857-1892 | one entry more, a leaf for the token, or on overflow back to the base |
| LrDriver.Parser.Reduce | text/Pods/WCDBOptimizedSQLCipher/parse.c:2241-2283 | the popped entries become one well-built tree; on acceptance one tree covers exactly the tokens shifted; acceptance and overflow happen exactly when the tables and the depth say so |
| LrDriver.Parser.Accept | text/Pods/WCDBOptimizedSQLCipher/parse.c:3968-3972 | acceptance leaves the base, and one well-built tree over the tokens shifted |
| LrDriver.Parser.PopAll | text/Pods/WCDBOptimizedSQLCipher/parse.c:1814-1830 | overflow leaves the base alone |
| LrDriver.Parser.Step | text/Pods/WCDBOptimizedSQLCipher/parse.c:4089-4200 | every turn ends as the tables say and keeps: index within 0..99, only the top pending, one tree per entry, leaves equal to the tokens shifted since the stack was last at its base; a shift adds its token, a reduction keeps the tokens and lowers the measure, acceptance puts them under one tree, a syntax error changes nothing; a syntax error comes exactly when the action is the error action, an overflow only at full depth |
| LrDriver.Parser.Feed | text/Pods/WCDBOptimizedSQLCipher/parse.c:4060-4201 | the loop on one token ends, in the way the tables determine: the token is on the stack, or a tree over the tokens before it is accepted, or it is dropped by a syntax error, or the stack overflowed |
| LrDriver.Parser.ParseAll | text/Pods/WCDBOptimizedSQLCipher/parse.c:4060-4201 | every token sequence is worked off; without syntax error and overflow the leaves of the accepted trees and then of the stack are the tokens taken, which are all but one for each acceptance; in any case the stack holds tokens of the input, in order |
| Paragraphs.SplitJoins | RZRichTextView/Classes/Depend/NSAttributedStringRZRichText.swift:51-60 | the paragraphs of a text put together are the text, each ending at its newline |
| Paragraphs.JoinSplits | RZRichTextView/Classes/Depend/NSAttributedStringRZRichText.swift:51-60 | paragraphs put together come apart as they were |
| Paragraphs.ParaRangeInside | RZRichTextView/Classes/Depend/NSAttributedStringRZRichText.swift:27-34 | the paragraph range found at any place inside a paragraph is that paragraph's range |
| Paragraphs.AllParagraphRanges | RZRichTextView/Classes/Depend/NSAttributedStringRZRichText.swift:51-60 | the loop terminates and lists the ranges of exactly the paragraphs, in order |
| Renumbering.DecimalValue | RZRichTextView/Classes/Depend/NSAttributedStringRZRichText.swift:158 | the printed number read back is the number |
| Renumbering.HeadOfMarked | RZRichTextView/Classes/Depend/NSAttributedStringRZRichText.swift:94-108 | the marker matcher finds exactly the marker that was put in front, whatever the text behind it |
| Renumbering.HeadExact | RZRichTextView/Classes/Depend/NSAttributedStringRZRichText.swift:94-108 | the head removed is a tab, digits and a dot or a bullet, and a tab, and any such head is removed in full; nothing else is |
| Renumbering.RunIndexMaximal | RZRichTextView/Classes/Depend/NSAttributedStringRZRichText.swift:132-145 | places are counted in runs of paragraphs that start with one style, which cannot be longer |
| Renumbering.NumberedKeeps | RZRichTextView/Classes/Depend/NSAttributedStringRZRichText.swift:149-163 | renumbering keeps a paragraph a paragraph, its style and its text behind the marker |
| Renumbering.RenumberedParas | RZRichTextView/Classes/Depend/NSAttributedStringRZRichText.swift:122-166 | the paragraphs of the renumbered text are the old ones, each numbered by its place |
| Renumbering.MarkerOfPlace | RZRichTextView/Classes/Depend/NSAttributedStringRZRichText.swift:149-163 | the n-th ordered paragraph of a run gets tab, n, dot, tab, a bullet paragraph the bullet marker, a plain one nothing, each with its old text behind |
| Renumbering.RenumberedTwice | RZRichTextView/Classes/Depend/NSAttributedStringRZRichText.swift:122-166 | renumbering twice is renumbering once |
| Renumbering.GroupRuns | RZRichTextView/Classes/Depend/NSAttributedStringRZRichText.swift:127-145 | the grouping loop puts every paragraph into its maximal run |
| Renumbering.PrintGroup | RZRichTextView/Classes/Depend/NSAttributedStringRZRichText.swift:147-164 | the printing loop numbers a group from 1 |
| Renumbering.ResetTabOrderNumber | RZRichTextView/Classes/Depend/NSAttributedStringRZRichText.swift:122-166 | the whole method computes the renumbered text |
| Restyling.ChosenExact | RZRichTextView/Classes/Depend/NSAttributedStringRZRichText.swift:36-49 | the filter selects exactly the touched paragraphs, in order |
| Restyling.TouchedBetween | RZRichTextView/Classes/Depend/NSAttributedStringRZRichText.swift:36-49 | the touched paragraphs are exactly those from the line of the selection's start to the line of its end |
| Restyling.ChosenSelected | RZRichTextView/Classes/Depend/NSAttributedStringRZRichText.swift:36-49 | a paragraph is chosen exactly when an insertion point of the selection, its ends included, belongs to it |
| Restyling.MappedRestyles | RZRichTextView/Classes/Depend/RZRichTextViewHelper.swift:253-282 | exactly those paragraphs are stripped of their markers and have every character restyled, all others stay as they were |
| Restyling.TouchedRanges | RZRichTextView/Classes/Depend/NSAttributedStringRZRichText.swift:36-49 | the filter over the range list yields the ranges of those paragraphs |
| Restyling.ConvertAll | RZRichTextView/Classes/Depend/RZRichTextViewHelper.swift:264-270 | every touched paragraph is cut out, stripped of its marker and restyled; the loop returns exactly when none of them is a bare marker |
| Restyling.SpliceReversed | RZRichTextView/Classes/Depend/RZRichTextViewHelper.swift:271-275 | replacing the ranges from the last to the first equals converting each paragraph in place |
| Restyling.NewRangeGood | RZRichTextView/Classes/Depend/RZRichTextViewUtils.swift:65-118 | for any two texts with equally many paragraphs each end of the new selection lies in the paragraph of the same number, as far from its end as before where that is possible, and the range lies in the text with nonnegative length |
| Restyling.NewRangeTotal | RZRichTextView/Classes/Depend/RZRichTextViewUtils.swift:65-118 | this holds for every selection in a nonempty text |
| Restyling.ReturnsExactly | RZRichTextView/Classes/Depend/NSAttributedStringRZRichText.swift:254-268 | in terms of the text: no touched paragraph is a bare marker if and only if the last paragraph is none or the selection ends before it |
| Restyling.BareMarkerEndless | RZRichTextView/Classes/Depend/NSAttributedStringRZRichText.swift:254-268 | a document that is one bare marker, bullet or any number, lies outside that condition wherever the cursor is |
| Restyling.InsetOrDeleteTabStyle | RZRichTextView/Classes/Depend/RZRichTextViewHelper.swift:253-282 | it returns exactly when the last paragraph is no bare marker or the selection ends before it; then the result is the renumbering of the text in which exactly the paragraphs with a point of the selection are stripped and restyled, with as many paragraphs as before, and the selection is the carried-over one; an empty document becomes exactly the first list item asked for |
| Undo.RunBounded | RZRichTextView/Classes/Depend/RZRichTextViewHelper.swift:177-221 | over every run the cursor stays on the timeline and the timeline within notesCount + 1 entries |
| Undo.UndoneAndRedone | RZRichTextView/Classes/Depend/RZRichTextViewHelper.swift:177-210 | k effective undos and k redos change nothing |
| Undo.ManyRecorded | RZRichTextView/Classes/Depend/RZRichTextViewHelper.swift:212-221 | edits in a row forget no more than the limit demands, and that the oldest |
| Undo.UndoneEdits | RZRichTextView/Classes/Depend/RZRichTextViewHelper.swift:177-221 | after any edits, k undos show what stood k edits before, for every k within entries and limit |
| Undo.BoundedAgrees | RZRichTextView/Classes/Depend/RZRichTextViewHelper.swift:212-218 | as long as every undo moves, the bounded history is the tail of the unbounded one, so dropping old entries is invisible |
| Undo.TimelineInjective | RZRichTextView/Classes/Depend/RZRichTextViewHelper.swift:177-210 | the timeline determines both stacks |
| Undo.Helper.AddToHistory | RZRichTextView/Classes/Depend/RZRichTextViewHelper.swift:212-221 | append, drop the oldest beyond the limit, empty the redo stack |
| Undo.Helper.Edit | RZRichTextView/Classes/Depend/RZRichTextViewHelper.swift:212-221 | recording an edit is recording on the timeline |
| Undo.Helper.RevokeText | RZRichTextView/Classes/Depend/RZRichTextViewHelper.swift:177-210 | undo and redo move the cursor, and the view shows the entry under it; the buttons are enabled exactly when there is somewhere to go |
| Undo.Helper.Play | RZRichTextView/Classes/Depend/RZRichTextViewHelper.swift:177-221 | any acts in any order follow the timeline, with the shown state the last history entry and both stacks together within notesCount + 1 |
| Undo.Helper.UndoThenRedo | RZRichTextView/Classes/Depend/RZRichTextViewHelper.swift:177-210 | k undos and k redos restore text, selection, typing attributes, history and stores |
| Picker.RemovedMembers | Source/Scene/Picker/HEPhotoPickerViewController.swift:280 | removal by identifier removes that identifier and nothing else |
| Picker.TappedKeeps | Source/Scene/Picker/HEPhotoPickerViewController.swift:254-285 | a tap keeps identifiers distinct and counts within the limits, for assets of any kind |
| Picker.OpenRule | Source/Scene/Picker/HEPhotoPickerViewController.swift:312-337 | among images and videos a cell is open exactly when nothing is selected, or the total is below the sum of both maxima and the kind is that of the selection |
| Picker.TappedOneKind | Source/Scene/Picker/HEPhotoPickerViewController.swift:254-285 | in imageOrVideo mode a tap on an open cell keeps the selection of one kind, among images and videos |
| Picker.TappedMembers | Source/Scene/Picker/HEPhotoPickerViewController.swift:254-285 | membership after a tap, for every identifier; when there is room is in Picker.TapRefused |
| Picker.TapRefused | Source/Scene/Picker/HEPhotoPickerViewController.swift:254-285 | a tap on an unselected image or video is refused exactly when its kind has reached its maximum, one of a third kind never; otherwise the asset is appended |
| Picker.TappedTwice | Source/Scene/Picker/HEPhotoPickerViewController.swift:254-285 | two taps undo each other |
| Picker.OtherKindMixes | Source/Scene/Picker/HEPhotoPickerViewController.swift:319-337 | an asset that is neither image nor video, chosen first, lets images and videos mix |
| Picker.MixesExactly | Source/Scene/Picker/HEPhotoPickerViewController.swift:319-337 | a further open cell keeps the one-kind rule if and only if it is of a third kind just when the selection is |
| Picker.ConfiguredConsistent | Source/Scene/Picker/HEPhotoPickerViewController.swift:359-377 | configuring twice is configuring once, and a kind without check marks has no room |
| Picker.ConfiguredExact | Source/Scene/Picker/HEPhotoPickerViewController.swift:359-377 | which limits and single-choice flags each mode leaves in force |
| Picker.CellSettled | Source/Scene/Picker/HEPhotoPickerViewController.swift:295-345 | the branches for one cell come to one rule: enabled exactly when marked or open |
| Picker.OtherCell | Source/Scene/Picker/HEPhotoPickerViewController.swift:295-345 | after a tap every other cell keeps its mark and is enabled by the rule for the new selection |
| Picker.SetCell | Source/Scene/Picker/HEPhotoPickerViewController.swift:302-344 | the loop body sets both flags and reports every change of the enabled flag but that of the tapped cell |
| Picker.Controller.constructor | Source/Scene/Picker/HEPhotoPickerViewController.swift:359-380 | configured options and the first album start out valid |
| Picker.Controller.FetchPhotoModels | Source/Scene/Picker/HEPhotoPickerViewController.swift:452-461 | fresh cells for the album, numbered in order, unmarked and enabled |
| Picker.Controller.SetCellState | Source/Scene/Picker/HEPhotoPickerViewController.swift:295-352 | every cell is set by the rule, and every cell whose enabled flag changed is in the set to refresh, or is the tapped one |
| Picker.Controller.UpdateSelectedCell | Source/Scene/Picker/HEPhotoPickerViewController.swift:254-289 | a tap is refused exactly at the maximum of its kind, otherwise the selection changes; the button's final state, all cells truthful again, all changed cells refreshed |
| Picker.Controller.ShowAlbum | Source/Scene/Picker/HEPhotoPickerViewController.swift:401-408 | after an album switch the new cells are truthful and the selection is kept |
| Picker.RunKeeps | Source/Scene/Picker/HEPhotoPickerViewController.swift:254-344 | over every sequence of taps and album switches the selection stays distinct and within the limits, for assets of any kind |
| Picker.RunOneKind | Source/Scene/Picker/HEPhotoPickerViewController.swift:254-344 | in imageOrVideo mode it stays of one kind over every sequence that meets images and videos only |
| Picker.TapsReach | Source/Scene/Picker/HEPhotoPickerViewController.swift:254-344 | every distinct list of album assets within the limits, of one kind in imageOrVideo mode, is reached by tapping its assets in turn |
| Picker.ReachedExactly | Source/Scene/Picker/HEPhotoPickerViewController.swift:254-344 | among images and videos the selections that taps on an album can lead to are exactly those |
| Picker.Controller.Session | Source/Scene/Picker/HEPhotoPickerViewController.swift:254-408 | the controller follows the rules over every such sequence, with isSelected equal to membership and isEnable exactly by the rule throughout, and the selection of one kind under the condition of Picker.RunOneKind |

## Left out

- nanopb callback fields, extensions and custom streams: their behaviour is user code. Pointer fields other than the packed growth loop, pb_release, the delimited and null-terminated variants, and the PB_WITHOUT_64BIT, PB_BUFFER_ONLY and old-callback builds.
- Message memory is modelled by value, one value per field: struct bytes, aliasing and the contents of a message after a failed decode are not captured. An entry of a fixed-count array that C leaves uninitialised is a default entry here, and a which_ member that names no field is not represented. Error strings are left out.
- Encoder.WriteBody: the sum bytes_written + size at pb_encode.c:740 is taken without wrap-around of size_t, as are the sums in the write check.
- Decoder.DecodeMessage: asks for nonzero and distinct tags at every depth, which the protobuf compiler guarantees; with repeated tags the field found depends on where the iterator stands.
- Laws.MergeLaw: excludes fixed-count arrays at top level, whose entries must come in one piece; `Laws.LoopConcat` holds for them too.
- Format.Varint32Exact: stops at 37 bytes; beyond them each byte is again OR-ed into the result or checked, as the 8-bit position says, which `Wire.Varint32From` keeps.
- PointerArray.DecodeGrowing: the allocator is a nondeterministic answer; freeing and moving memory are not modelled.
- SQLite's semantic actions, destructors and tracing, and its concrete tables: the tables are parameters under `LrTables.Certified` and `LrRanks.Ranked`, with the sizes and code ranges of this parse.c.
- LrTables.TinyCertified: shows that the conditions are consistent, on tables of one rule; that the tables of this parse.c meet them is left to tools/certificate.py, since they are finite generated data.
- LrRanks.TinyRanked: the same for the ranks.
- TypeSafety.DecodedIsTyped: asks for integer sizes of 1, 2, 4 or 8 bytes, room for the NUL or the length field, and defaults of their field's type, as the generator provides.
- NSRegularExpression, getParagraphStart and the paragraph-style machinery: a direct marker matcher, a newline splitter and a style per character take their place, so only the newline separates paragraphs.
- Restyling.InsetOrDeleteTabStyle: where mutableTransParagraphTo calls itself without end, on an empty paragraph, the model answers `done == false` instead.
- Undo.Helper.AddToHistory: notesCount is fixed and not negative.
- Picker.Controller.UpdateSelectedCell: selected models are kept as identifier and kind, the only parts of them the code reads; the browser screen, photoLibraryDidChange, alerts and the single-choice screens are not modelled.
- All view, layout, animation, navigation, device, database and network code, and the other pods.
