# A verified model of the nanopb codec

The app vendors nanopb 0.3.9.7, a table-driven encoder and decoder for the Protocol Buffers wire
format, under `FastWay/Pods/nanopb`. This project models that codec in Dafny and proves what it is
for: what the encoder writes, the decoder reads back; what a message means does not depend on how its
records are ordered, split or interleaved with unknown fields; and neither side touches a byte that is
not its own. Where one of these laws fails, the input on which it fails and the exact condition under
which it holds are proved instead.

## How it is built

Memory is a sequence of bytes and a message struct a place in it: `StructMemory.Struct` is a table, an
address and a size. The decoder is specified on the whole memory, so that a store past the end of one
struct is seen by its neighbours. A descriptor table is a sequence of `Field` entries with nanopb's own
members: type bits, relative offsets, sizes, default value or submessage
table. `StructMemory.Placed` says where a struct may lie: inside memory, with room behind it for what its
defaults overrun. `Descriptor.WellFormed` says which tables the generator emits: nonzero distinct tags below
2^29, static allocation, no extension entries, sizes that match the types, and cells inside the struct
that are apart unless the entries belong to one oneof.

| layer | specification (functions) | the code as it runs (methods on classes and arrays) |
|---|---|---|
| wire integers | `Wire`, `Integers` | `InputStream`, `WireEncoder`, `ValueDecoder`, `NegativeVarint` |
| streams | `OutputStream.Emits`, `InputStream.IStream.Unread` | `OutputStream.OStream`, `InputStream.IStream` |
| field iterator | `Descriptor` (a fold over the table) | `FieldIterator.FieldIter` |
| encoder | `Encoding` | `Encoder` |
| decoder | `Decoding` | `ValueDecoder`, `SeenBits`, `Decoder` |
| heap arrays | `Allocation.DecodeAll` | `Allocation` |

Every method is proved equal to its specification: the answer, the bytes left behind on success and on
failure, and the position of the stream. The laws below are proved about the specifications and so hold
of the code. `Emits` and `Holds` are the two relations to know: a stream asked for bytes b answers yes
exactly if it can take all of b, then holds exactly b, and never writes past its budget; a field's cells
hold a slot while everything else in memory is as it was.

The laws are in these modules.

- `SentBytes`, `TakenBytes`, `DefaultValues`: the specifications in the wire format's own terms, with its
  numbers written out: what a reader of the format finds in what is sent, what is accepted and what is
  stored for it, and what an initialised struct holds.
- `Varint32`: the 32-bit reader against the 64-bit one.
- `Locality`, `Records`, `Merging`: what a record consumes; unknown fields; messages and submessages that
  arrive in parts.
- `Packing`: packed and unpacked forms of an array.
- `Overrun`, `Frame`, `Clearing`: exactly which bytes the defaults and the records of a field write, and
  when they stay inside its cells.
- `Heeded`, `Lockstep`: on which bytes of memory the effect of a record depends, on every table.
- `Placement`: with long fixed-count arrays (`Descriptor.LongArrays`) decoding depends on and changes the
  struct's own bytes only.
- `FieldOrder`, `OrderExactly`, `OrderMatters`: exactly when the order of two records matters. `Planted`,
  `Loud` and `Accepted` build the records that show it.
- `Messages`, `EncodeErrors`, `SizeBounds`, `RequiredFields`: valid messages, equality of messages, freshly
  initialised structs, and which messages encode.
- `ValueRoundTrip`, `Effects`, `Arrivals`, `PartialDecode`, `RoundTrip`, `SentStrings`: decode undoes
  encode, for values, records, partly decoded structs and whole messages, and exactly when.
- `OldMemory`, `Received`: what of a decoded message depends on what memory held before, and when a
  message decoded from arbitrary input is valid.

Configuration: 64-bit `size_t` and pointers, little-endian integers, `pb_size_t` of 32 bits
(`PB_FIELD_32BIT`), `bool` of one byte, `uint_fast8_t` of eight bits, `PB_MAX_REQUIRED_FIELDS` of 64.

## What the proofs found

- `pb_field_set_to_default` clears a count cell for every repeated field. A fixed-count array has none,
  so four bytes at the start of the array are cleared instead, and if the array is shorter than that, the
  bytes behind it. A default stays in its field's cells if and only if the array has at least four bytes
  (`Overrun.FixedDefaultExactly`). For a whole table the length alone does not decide, because the bytes
  behind may be an entry's own (`OrderMatters.ShortButContained`): the defaults leave every byte outside
  the table's cells alone if and only if what is overrun is owned by other entries
  (`Overrun.DefaultsContainedExactly`), and nothing is overrun if and only if every fixed-count array that
  they reach has four bytes (`Overrun.OverrunsNowhere`).
- Array entries and oneof members are initialised as they arrive. If the submessage's table ends in a
  short fixed-count array, a record clears bytes behind its own field: these bytes are `Frame.Spills`. A
  byte outside a field's cells survives all its records if and only if it is none of them
  (`Clearing.SpillsExactly`), and all records stay in the field's cells if and only if there are none
  (`Clearing.RecordsStayExactly`).
- So the order of records can matter: a field behind the array is lost when its record comes first, and
  kept when it comes second (`OrderMatters.FieldOrderMatters`). The order of the records of two fields
  does not matter, from any state and whatever follows, if and only if the fields are not members of one
  oneof, are not both fixed-count arrays, and neither spills on a byte that the other heeds, one that it
  may leave nonzero or looks at (`OrderExactly.OrderFreeExactly`).
- A string field that fills its whole slot without a terminator is encoded, but the decoder refuses the
  result (`ValueRoundTrip.StringRoundTripExact`). It is the only such value: with
  which_ cells that name members, what is encoded is accepted back if and only if every string that is
  sent, at any depth, is terminated (`SentStrings.RoundTripExactly`).
- On an empty table the terminating entry matches tag 0, so a record of tag 0 is not skipped: it is
  decoded as a bool at offset 0 of the struct. A complete record of a tag that is not in the table is
  without effect, whatever memory holds, if and only if the table is not empty or the tag is not 0
  (`Records.TransparentExactly`).
- A fixed-count array that is not received keeps what memory held before, past the zero count
  (`OldMemory.AbsentArrayKept`). With long fixed-count arrays nothing else in a decoded message depends
  on old memory (`OldMemory.OldMemoryIrrelevant`). With short ones a zero count can fall on a value
  that was just stored; what still holds of every table is that the defaults are stored in the same
  bytes whatever memory holds (`Lockstep.LockDefaults`), and that records do the same over memories that
  agree on the bytes the table heeds (`Lockstep.NoinitLocks`).
- For the same reason what pb_decode accepts need not be a valid message. It is one if and only if its
  fixed-count arrays hold valid values (`Received.DecodedValidExactly`), and then it encodes and decodes
  to itself (`Received.DecodeEncodeDecode`). On tables without fixed-count arrays of submessages, or of
  strings or bytes inside submessages, an accepted input leaves a valid message over all memories if and
  only if it brings every fixed-count array of strings or bytes, but for those whose values all start
  below the zero count (`Received.ValidExactlyBrought`).
- The check for required fields covers the first 64 only (`RequiredFields.RequiredCheckExact`).
- The 32-bit varint reader drops bits 32 to 34 of a fifth byte that has a continuation bit. Which varints
  it accepts is `Varint32.Varint32AcceptsExactly`; of those it returns the value, or the low half of its
  sign extension, if and only if the bits above bit 31 are all zero or all one
  (`Varint32.ReadsTrueExactly`). The key `80 80 80 80 F0 00`, whose value is 7 * 2^32, is read as zero
  and ends the message (`Varint32.TruncatedKey`).

## Model

| member | source | states |
|---|---|---|
| Wire.VarintRoundTrip | FastWay/Pods/nanopb/pb_encode.c:608-628 | for every v below 2^64, decoding the encoding of v followed by anything returns v and leaves the suffix unread |
| Wire.VarintMinimal | FastWay/Pods/nanopb/pb_encode.c:608-628 | no byte string that spells v in base 128 is shorter than the encoder's |
| Wire.VarintDigit | FastWay/Pods/nanopb/pb_encode.c:608-628 | byte k of the encoding is digit k of the number in base 128, lowest first, with 128 added on all bytes but the last |
| Wire.VarintBytesAtMostTen | FastWay/Pods/nanopb/pb_encode.c:610 | the encoding of a 64-bit value fits the ten-byte buffer |
| Wire.VarintPrefixFree | FastWay/Pods/nanopb/pb_encode.c:608-628 | no encoding is a proper prefix of another |
| Wire.DecodeVarint32Consumes | FastWay/Pods/nanopb/pb_decode.c:187-247 | the 32-bit reader stops right after the first byte without a continuation bit, like the skipper |
| Wire.Substream | FastWay/Pods/nanopb/pb_decode.c:372-385 | a substream and what follows it are together strictly shorter than the input before the length: the measure of the recursion |
| Wire.SkipFieldExtends | FastWay/Pods/nanopb/pb_decode.c:278-331 | skipping a complete record depends on that record only |
| Varint32.Varint32Agrees | FastWay/Pods/nanopb/pb_decode.c:187-275 | on any varint of at most ten bytes that the 32-bit reader accepts, the 64-bit reader succeeds, stops at the same byte, and the 32-bit result is its low half |
| Varint32.Varint32AcceptsExactly | FastWay/Pods/nanopb/pb_decode.c:187-247 | a varint of up to ten bytes is accepted if and only if a last fifth byte is below 16 and every later digit is zero or the sign extension of a value with bit 31 set; bits 32 to 34 of a fifth byte that is not the last are ignored |
| Varint32.ReadsTrueExactly | FastWay/Pods/nanopb/pb_decode.c:187-247 | what is accepted is read as its value, or as the low half of its 64-bit sign extension, if and only if the bits above bit 31 are all zero or all one |
| Varint32.TruncatedKey | FastWay/Pods/nanopb/pb_decode.c:298-319 | the six-byte varint of 7 * 2^32 is read as 0 by the reader of keys, whatever follows |
| Varint32.Varint32RoundTrip | FastWay/Pods/nanopb/pb_decode.c:187-252 | every canonical encoding of a uint32 is accepted and read back |
| Varint32.KeyRoundTrip | FastWay/Pods/nanopb/pb_decode.c:298-319 | a field key gives back its tag and wire type |
| Varint32.DelimitedRoundTrip | FastWay/Pods/nanopb/pb_decode.c:372-385 | the substream of a length-prefixed string is exactly that string |
| NegativeVarint.SlideStep | FastWay/Pods/nanopb/pb_encode.c:590-602 | one pass of the sliding window sends the low digit of the 64-bit number that the word and the remaining compensation bits stand for, and leaves that number divided by 128 |
| NegativeVarint.NegativeVarintBuffer | FastWay/Pods/nanopb/pb_encode.c:583-603 | for every negative 32-bit value the loop fills its buffer with the bytes of the 64-bit sign extension |
| NegativeVarint.EncodeNegativeVarint | FastWay/Pods/nanopb/pb_encode.c:583-606 | the stream receives the bytes pb_encode_varint would send for the sign extension |
| NegativeVarint.NegativeReadBack | FastWay/Pods/nanopb/pb_decode.c:221-236 | the 32-bit reader accepts the ten bytes of every negative int32 and returns its 32-bit pattern |
| Integers.ZigZagInverse | FastWay/Pods/nanopb/pb_encode.c:630-639 | zig-zag decoding undoes zig-zag encoding on every int64 |
| Integers.UnZigZagInverse | FastWay/Pods/nanopb/pb_decode.c:1272-1284 | zig-zag encoding undoes decoding on every uint64, so the two are a bijection |
| Integers.NarrowVarintExact | FastWay/Pods/nanopb/pb_decode.c:1346-1364 | a signed varint field of 1, 2 or 4 bytes accepts a wire value exactly if it fits after the reduction to int32; an 8-byte field accepts all |
| Integers.NarrowExact | FastWay/Pods/nanopb/pb_decode.c:1375-1412 | unsigned and zig-zag fields accept exactly the wire values that fit their width |
| Integers.NarrowInverse | FastWay/Pods/nanopb/pb_decode.c:1332-1415 | for each width each integer decoder stores the pattern its encoder started from |
| Descriptor.FoldRecoversOffsets | FastWay/Pods/nanopb/pb.h:401-409 | folding the relative offsets the macros produce gives back the struct offset of every member, unions included |
| Descriptor.FoldRecoversSizes | FastWay/Pods/nanopb/pb_common.c:44-75 | the same for the has_, _count and which_ members |
| Descriptor.UnionShares | FastWay/Pods/nanopb/pb_common.c:44-50 | the members of one union have the same data offset |
| Descriptor.IndexOf | FastWay/Pods/nanopb/pb_common.c:78-95 | the first matching entry, or none matches |
| FieldIterator.FieldIter.Begin | FastWay/Pods/nanopb/pb_common.c:8-18 | the cursor stands on the first entry with that entry's data and size offsets |
| FieldIterator.FieldIter.Next | FastWay/Pods/nanopb/pb_common.c:20-76 | the cursor moves one entry on, or to the first with answer false, and its pointers and required index again equal the fold over the prefix |
| FieldIterator.FieldIter.Find | FastWay/Pods/nanopb/pb_common.c:78-95 | from any position an entry with the tag is found if and only if there is one, in at most one lap; otherwise the cursor ends where it was |
| FieldIterator.FoundIsIndexOf | FastWay/Pods/nanopb/pb_common.c:78-95 | with distinct tags the entry found does not depend on where the search began |
| StructMemory.GetPutSame | FastWay/Pods/nanopb/pb_decode.c:406-483 | what is stored in an entry's cells is read back |
| StructMemory.GetPutOther | FastWay/Pods/nanopb/pb_decode.c:406-483 | a store into one entry's cells leaves every entry outside its union alone |
| StructMemory.PutsCommute | FastWay/Pods/nanopb/pb_decode.c:406-483 | stores into entries of different unions commute |
| StructMemory.UnionSizeShared | FastWay/Pods/nanopb/pb_decode.c:476 | all members of a union see one which_ value |
| OutputStream.OStream.BufWrite | FastWay/Pods/nanopb/pb_encode.c:74-84 | the bytes stand in the buffer at the stream's position, nothing else changed, and the position moved past them |
| OutputStream.OStream.Write | FastWay/Pods/nanopb/pb_encode.c:103-124 | the stream takes the bytes exactly if they fit its budget; a sizing stream only counts |
| OutputStream.EmitsConcat | FastWay/Pods/nanopb/pb_encode.c:103-124 | writing a and then b, where a was taken, is writing a followed by b, whether b is taken or not |
| OutputStream.EmitsFailure | FastWay/Pods/nanopb/pb_encode.c:103-124 | a stream that refuses a refuses a followed by anything |
| WireEncoder.VarintBuffer | FastWay/Pods/nanopb/pb_encode.c:608-626 | the local buffer holds exactly the canonical varint and never overflows |
| WireEncoder.EncodeVarint | FastWay/Pods/nanopb/pb_encode.c:608-628 | the stream receives the canonical varint |
| WireEncoder.EncodeSvarint | FastWay/Pods/nanopb/pb_encode.c:630-639 | the stream receives the varint of the zig-zag value |
| WireEncoder.EncodeFixed32 | FastWay/Pods/nanopb/pb_encode.c:641-650 | four bytes, least significant first |
| WireEncoder.EncodeFixed64 | FastWay/Pods/nanopb/pb_encode.c:653-666 | eight bytes, least significant first |
| Bits.LittleEndianDigit | FastWay/Pods/nanopb/pb_encode.c:653-666 | byte k of these is digit k of the number in base 256, lowest first |
| WireEncoder.EncodeTagForField | FastWay/Pods/nanopb/pb_encode.c:675-707 | the key of the field's tag and the wire type of its type |
| WireEncoder.EncodeString | FastWay/Pods/nanopb/pb_encode.c:709-715 | the length, then the bytes |
| Encoder.EncVarint | FastWay/Pods/nanopb/pb_encode.c:776-797 | a signed field sends its 64-bit sign extension |
| Encoder.EncUvarint | FastWay/Pods/nanopb/pb_encode.c:799-815 | an unsigned field sends its value |
| Encoder.EncSvarint | FastWay/Pods/nanopb/pb_encode.c:817-833 | a zig-zag field sends the zig-zag of its signed value |
| Encoder.EncBytes | FastWay/Pods/nanopb/pb_encode.c:852-873 | the announced bytes, or an error exactly if the size exceeds the field |
| Encoder.EncString | FastWay/Pods/nanopb/pb_encode.c:875-899 | the bytes before the terminator, or the whole field |
| Encoder.EncodeSubmessage | FastWay/Pods/nanopb/pb_encode.c:717-765 | exactly the length-prefixed encoding of the submessage; the writing pass always fills the measured size, so the check for a changed size never fires |
| Encoder.MeasurePacked | FastWay/Pods/nanopb/pb_encode.c:180-188 | the sizing loop returns the length of the packed payload |
| Encoder.EncodeArrayField | FastWay/Pods/nanopb/pb_encode.c:147-236 | the packed or unpacked encoding of the first count entries, or an error exactly if the count exceeds the array |
| Encoder.CheckProto3Default | FastWay/Pods/nanopb/pb_encode.c:240-337 | the presence test of a proto3 field, by type and recursively through submessages |
| Encoder.EncodeBasicField | FastWay/Pods/nanopb/pb_encode.c:341-426 | a field's records, or nothing if it is absent |
| Encoder.Encode | FastWay/Pods/nanopb/pb_encode.c:528-550 | the stream receives exactly the encodings of the entries in table order, or refuses |
| Encoder.GetEncodedSize | FastWay/Pods/nanopb/pb_encode.c:567-576 | the sizing pass succeeds exactly if the message can be encoded, and returns the length of its encoding |
| Encoder.EncodeToBuffer | FastWay/Pods/nanopb/pb_encode.c:86-101 | encoding into a buffer succeeds exactly if the buffer holds at least the encoded size, writes exactly that many bytes and leaves the rest of the buffer alone |
| SentBytes.KeyReads | FastWay/Pods/nanopb/pb_encode.c:675-707 | a field's key reads as its tag and wire type 0 for bool and integers, 1 for fixed64, 5 for fixed32, 2 for everything with a length |
| SentBytes.NumberSent | FastWay/Pods/nanopb/pb_encode.c:769-833 | a 64-bit reader finds the field's number: a signed one modulo 2^64 whatever the field's width, a zig-zag one as 2x or -2x-1, a bool as 0 or 1 |
| SentBytes.WidthInvisible | FastWay/Pods/nanopb/pb_encode.c:776-833 | equal numbers in fields of different widths are sent in the same bytes |
| SentBytes.FixedSent | FastWay/Pods/nanopb/pb_encode.c:835-850 | fixed-size values are sent as their four or eight bytes in memory |
| SentBytes.StringSent | FastWay/Pods/nanopb/pb_encode.c:875-899 | what is sent of a string is a length and the bytes before the first zero, or the whole field |
| SentBytes.BytesSent | FastWay/Pods/nanopb/pb_encode.c:852-873 | what is sent of bytes is a length and as many bytes as the size says, or an error exactly if that exceeds the field |
| SentBytes.FixedLengthBytesSent | FastWay/Pods/nanopb/pb_encode.c:909-912 | bytes of fixed length are sent with a length and whole |
| SentBytes.SubmessageSent | FastWay/Pods/nanopb/pb_encode.c:717-765 | what is sent of a submessage is a length and its encoding |
| SentBytes.ArraySentPacked | FastWay/Pods/nanopb/pb_encode.c:161-205 | an array of scalars is one record with key tag * 8 + 2, a length, and the entries' values in order |
| SentBytes.ArraySentUnpacked | FastWay/Pods/nanopb/pb_encode.c:207-233 | each entry of any other array is a record of its own, in order |
| SentBytes.ArrayLimits | FastWay/Pods/nanopb/pb_encode.c:154-158 | nothing is sent of an empty array, something of a nonempty one, and a count beyond the array is an error |
| SentBytes.FlaggedSent | FastWay/Pods/nanopb/pb_encode.c:377-414 | a required field is always sent, an optional one exactly if its has_ flag is set, a member exactly if which_ holds its tag |
| SentBytes.ImplicitSent | FastWay/Pods/nanopb/pb_encode.c:269-337 | a proto3 field is left out exactly if it is an empty string, has no bytes, or is zero |
| SentBytes.ImplicitSubmessageSent | FastWay/Pods/nanopb/pb_encode.c:289-311 | a proto3 submessage whose which_ cells name members is left out exactly if its own encoding is empty |
| SentBytes.MessageSentInOrder | FastWay/Pods/nanopb/pb_encode.c:528-550 | a message is sent as what is sent of its entries, in table order |
| SizeBounds.FromBound | FastWay/Pods/nanopb/pb_encode.c:717-765 | a message's encoding is never longer than a bound computed from its table |
| EncodeErrors.EncodesExactly | FastWay/Pods/nanopb/pb_encode.c:528-550 | apart from room, encoding fails exactly if a count exceeds its array or a bytes size its field in something that is sent, at any depth |
| EncodeErrors.ValidEncodable | FastWay/Pods/nanopb/pb_encode.c:528-550 | every valid message can be encoded |
| InputStream.IStream.ReadByte | FastWay/Pods/nanopb/pb_decode.c:141-157 | the next byte, or an error exactly if the budget is used up |
| InputStream.IStream.Read | FastWay/Pods/nanopb/pb_decode.c:102-137 | exactly count bytes are copied into the struct and consumed, or nothing happens |
| InputStream.IStream.DecodeVarint32Eof | FastWay/Pods/nanopb/pb_decode.c:187-247 | the loop with its sign-extension rule accepts and returns what the specification says; eof exactly on empty input |
| InputStream.IStream.DecodeVarint64 | FastWay/Pods/nanopb/pb_decode.c:255-275 | accepts exactly varints of at most ten bytes and returns their base-128 sum modulo 2^64 |
| InputStream.IStream.DecodeTag | FastWay/Pods/nanopb/pb_decode.c:298-319 | tag and wire type of the next key; a zero key ends the message |
| InputStream.IStream.SkipFieldBytes | FastWay/Pods/nanopb/pb_decode.c:321-331 | skips exactly the payload of the wire type |
| InputStream.IStream.MakeStringSubstream | FastWay/Pods/nanopb/pb_decode.c:372-385 | the substream sees exactly the announced bytes; its end and what is left to the parent add up to the parent's end before |
| InputStream.IStream.CloseStringSubstream | FastWay/Pods/nanopb/pb_decode.c:387-400 | however much the substream read, the parent stands right after the announced bytes with its remaining budget unchanged |
| ValueDecoder.DecVarint | FastWay/Pods/nanopb/pb_decode.c:1332-1367 | stores the truncated pattern and answers whether nothing was lost |
| ValueDecoder.DecUvarint | FastWay/Pods/nanopb/pb_decode.c:1369-1391 | stores the truncated value and answers whether nothing was lost |
| ValueDecoder.DecSvarint | FastWay/Pods/nanopb/pb_decode.c:1393-1415 | stores the truncated zig-zag value and answers whether nothing was lost |
| ValueDecoder.DecodeFixed32 | FastWay/Pods/nanopb/pb_decode.c:1286-1298 | the shifted and OR-ed bytes are the little-endian number |
| ValueDecoder.DecodeFixed64 | FastWay/Pods/nanopb/pb_decode.c:1301-1318 | the shifted and OR-ed bytes are the little-endian number |
| ValueDecoder.DecBool | FastWay/Pods/nanopb/pb_decode.c:1321-1330 | stores 1 for any nonzero value |
| ValueDecoder.DecBytes | FastWay/Pods/nanopb/pb_decode.c:1434-1469 | stores size and contents if they fit; the size is stored even if the contents are missing |
| ValueDecoder.DecString | FastWay/Pods/nanopb/pb_decode.c:1471-1504 | stores contents and terminator if they fit; the terminator is stored even if the contents are missing |
| ValueDecoder.DecFixedLengthBytes | FastWay/Pods/nanopb/pb_decode.c:1530-1551 | takes exactly the field's length, or none at all as zeros |
| TakenBytes.VarintAcceptedExactly | FastWay/Pods/nanopb/pb_decode.c:255-275 | a 64-bit varint is accepted exactly if one of its first ten bytes has no continuation bit |
| TakenBytes.VarintTaken | FastWay/Pods/nanopb/pb_decode.c:255-275 | its value is that of the digits up to there, modulo 2^64 |
| TakenBytes.BitposWraps | FastWay/Pods/nanopb/pb_decode.c:200-240 | the 32-bit reader's bit position is eight bits wide: after 37 zero digits a digit of 1 reads as 8 |
| TakenBytes.SkippedExactly | FastWay/Pods/nanopb/pb_decode.c:321-331 | what is skipped of an unknown field: one varint for wire type 0, eight bytes for 1, a length and its bytes for 2, four bytes for 5; every other wire type is an error |
| TakenBytes.VarintSkipped | FastWay/Pods/nanopb/pb_decode.c:278-287 | the varint that is skipped ends with its first byte without a continuation bit |
| TakenBytes.NumberTaken | FastWay/Pods/nanopb/pb_decode.c:1332-1415 | an integer field accepts a varint exactly if its number fits the field's width, holds that number then, and the number modulo the width in any case |
| TakenBytes.BoolTaken | FastWay/Pods/nanopb/pb_decode.c:1321-1330 | a bool stores 1 for every number but zero |
| TakenBytes.FixedTaken | FastWay/Pods/nanopb/pb_decode.c:1286-1313 | a fixed-size field takes its four or eight bytes as they are, or fails if there are fewer |
| TakenBytes.StringTaken | FastWay/Pods/nanopb/pb_decode.c:1471-1500 | a string is accepted exactly if it fits with its terminator; if it is cut short only the terminator is written |
| TakenBytes.BytesTaken | FastWay/Pods/nanopb/pb_decode.c:1434-1469 | bytes are accepted exactly if they fit behind their size; if they are cut short only the size is written |
| TakenBytes.FixedLengthBytesTaken | FastWay/Pods/nanopb/pb_decode.c:1530-1551 | bytes of fixed length are accepted exactly if they have that length or none, which stands for zeros |
| SeenBits.WordSet | FastWay/Pods/nanopb/pb_decode.c:1018-1019 | OR-ing in one bit of a word adds one index to the set the word stands for |
| SeenBits.WordIsMask | FastWay/Pods/nanopb/pb_decode.c:1057-1071 | with no higher bit set, a word equals the mask of r ones exactly if its first r indices are all in the set |
| SeenBits.FieldsSeen.Set | FastWay/Pods/nanopb/pb_decode.c:1015-1020 | the two words represent the old set and the new index |
| SeenBits.FieldsSeen.CheckAll | FastWay/Pods/nanopb/pb_decode.c:1054-1072 | the comparison of whole words and of one partial word is true exactly if all indices below the count are in the set |
| Decoder.SetFieldToDefault | FastWay/Pods/nanopb/pb_decode.c:839-909 | memory is as the specified default of the field leaves it, the bytes behind a short fixed-count array included |
| Decoder.SetToDefaults | FastWay/Pods/nanopb/pb_decode.c:911-922 | memory is as the defaults of all entries, stored in table order at every depth, leave it |
| Decoder.DecSubmessage | FastWay/Pods/nanopb/pb_decode.c:1506-1528 | the submessage is decoded from exactly its substream, array entries after initialisation; the parent continues right after it |
| Decoder.DecodePackedItems | FastWay/Pods/nanopb/pb_decode.c:436-445 | the loop stores values one after the other until input or array is used up, in memory or in the local count of a fixed-count array |
| Decoder.DecodePackedField | FastWay/Pods/nanopb/pb_decode.c:425-453 | a packed record succeeds exactly if all of its payload decodes into the array |
| Decoder.DecodeEntry | FastWay/Pods/nanopb/pb_decode.c:456-464 | one entry goes to the slot past the count, which is advanced even on failure |
| Decoder.DecodeMember | FastWay/Pods/nanopb/pb_decode.c:466-478 | a oneof member is stored and selected; a submessage starts from defaults if another member was selected before |
| Decoder.CellsInOrder | FastWay/Pods/nanopb/pb_decode.c:406-483 | storing the has_ flag, count or which_ value and then the value, as the code does, is storing the specified slot as a whole |
| Decoder.DecodeStaticField | FastWay/Pods/nanopb/pb_decode.c:406-483 | one record's whole effect on memory and on the local count of a fixed-count array, on success and on failure |
| Decoder.DecodeKnownField | FastWay/Pods/nanopb/pb_decode.c:991-1023 | bookkeeping of fixed-count arrays and required fields around one record |
| Decoder.DecodeOneRecord | FastWay/Pods/nanopb/pb_decode.c:960-1023 | a record goes to the entry with its tag, wherever the iterator stood, or is skipped |
| Decoder.DecodeRecords | FastWay/Pods/nanopb/pb_decode.c:946-1024 | the loop terminates and leaves struct, bitset, fixed-count state and stream as the record-by-record specification says |
| Decoder.CountRequired | FastWay/Pods/nanopb/pb_decode.c:1039-1049 | moving the iterator to the end counts all required entries, the last one included |
| Decoder.CheckEnd | FastWay/Pods/nanopb/pb_decode.c:1026-1073 | passes exactly if the last fixed-count array is complete and the first 64 required fields were seen |
| Decoder.DecodeMessageNoinit | FastWay/Pods/nanopb/pb_decode.c:928-1076 | decodes in place: same verdict, same memory, same unread input as the specification |
| Decoder.DecodeMessage | FastWay/Pods/nanopb/pb_decode.c:1078-1090 | initialises, then decodes in place |
| TakenBytes.WireTypeIgnored | FastWay/Pods/nanopb/pb_decode.c:406-464 | the wire type of a known field's record matters only for telling a packed array from a single entry |
| TakenBytes.FlagStored | FastWay/Pods/nanopb/pb_decode.c:419-422 | a record of a value, accepted or not, sets the has_ flag to 1 or the which_ cell to the tag |
| Merging.SubmessageFlagStored | FastWay/Pods/nanopb/pb_decode.c:419-478 | so does a record of a submessage, which counts an array entry as well |
| TakenBytes.EntryCounted | FastWay/Pods/nanopb/pb_decode.c:454-463 | an entry of an array is counted whether or not it is accepted, in 32 bits |
| TakenBytes.FullArrayRefuses | FastWay/Pods/nanopb/pb_decode.c:454-463 | a full array, of values or of submessages, accepts no further entry, but counts it |
| TakenBytes.PackedRefused | FastWay/Pods/nanopb/pb_decode.c:424-452 | a packed array whose next value is refused fails, does not count it, and keeps what its decoder stored |
| TakenBytes.IncompleteRefused | FastWay/Pods/nanopb/pb_decode.c:998-1008 | no fixed-count array is begun while another one is incomplete |
| TakenBytes.FixedCountTaken | FastWay/Pods/nanopb/pb_decode.c:995-1034 | a message of entries of one fixed-count array is accepted exactly if it has none of them or all |
| TakenBytes.TerminatorTaken | FastWay/Pods/nanopb/pb_common.c:82-88 | on an empty table a record of tag 0 is a bool at the start of the struct |
| TakenBytes.ZeroKeyEnds | FastWay/Pods/nanopb/pb_decode.c:298-319 | a zero byte where a key could be ends the message with the same verdict and struct as the end of the input, and what follows stays unread |
| DefaultValues.DefaultsStored | FastWay/Pods/nanopb/pb_decode.c:839-922 | with long fixed-count arrays, an initialised struct holds, at every depth, zero flags, counts and which_ cells, and in each required or optional value the table's default bytes or zeros |
| DefaultValues.DefaultValueStored | FastWay/Pods/nanopb/pb_decode.c:874-889 | so it is, read in memory, after initialising and after decoding the empty input, over any memory |
| DefaultValues.EntryArrives | FastWay/Pods/nanopb/pb_decode.c:1506-1528 | a new entry of a submessage array starts from its table's defaults |
| DefaultValues.MemberArrives | FastWay/Pods/nanopb/pb_decode.c:466-478 | so does a oneof submessage if another member was selected |
| Decoding.DecodeScalar | FastWay/Pods/nanopb/pb_decode.c:436-445 | a value that decodes has consumed at least one byte, so the packed loops terminate; the stored value has the field's length on success and on failure |
| Decoding.DecodeRecord | FastWay/Pods/nanopb/pb_decode.c:946-1024 | a handled record never consumes more than was left, and leaves a state of the same table and struct size |
| Locality.LoopConcat | FastWay/Pods/nanopb/pb_decode.c:946-1024 | from any state, decoding a followed by b is decoding a and then b, unless a ends early |
| Locality.DecodeCellsConsumes | FastWay/Pods/nanopb/pb_decode.c:406-483 | a decoded record whose wire type agrees with its descriptor ends where skipping it would, submessages included |
| Locality.DecodeCellsComplete | FastWay/Pods/nanopb/pb_decode.c:406-483 | on a complete payload neither success nor failure nor what is stored depends on what follows |
| Records.UnknownFieldTransparent | FastWay/Pods/nanopb/pb_decode.c:960-989 | inserting a complete record of an unknown tag at any record boundary, in any state, changes neither verdict nor result, even between entries of a fixed-count array |
| Records.UnknownFieldSkipped | FastWay/Pods/nanopb/pb_decode.c:960-989 | the same for a whole pb_decode |
| Records.TagZeroVisible | FastWay/Pods/nanopb/pb_common.c:82-88 | on an empty table a complete record of tag 0, of any wire type, is not skipped: over a first byte above 1 the result differs from that of the empty input |
| Records.TransparentExactly | FastWay/Pods/nanopb/pb_decode.c:960-989 | a complete record of a tag that is not in the table is without effect on the empty message, whatever memory holds, if and only if the table is not empty or the tag is not 0 |
| FieldOrder.FieldsCommute | FastWay/Pods/nanopb/pb_decode.c:991-1023 | on every table, records of two fields in different unions, not both fixed-count arrays, of which neither spills on a byte that the other heeds, have the same effect in either order |
| FieldOrder.SwapRecords | FastWay/Pods/nanopb/pb_decode.c:946-1024 | swapping two adjacent such records, from any state, changes neither whether the loop succeeds nor the state it reaches |
| FieldOrder.FieldOrderIrrelevant | FastWay/Pods/nanopb/pb_decode.c:946-1090 | the same for a whole pb_decode |
| OrderExactly.OrderFreeExactly | FastWay/Pods/nanopb/pb_decode.c:946-1024 | the order of the records of two fields does not matter, from any state and whatever follows, if and only if they are not members of one oneof, are not both fixed-count arrays, and neither spills on a byte that the other heeds |
| OrderMatters.FieldOrderMatters | FastWay/Pods/nanopb/pb_decode.c:855-861 | on a table with a short fixed-count array inside an array entry, two records of other fields in the two orders leave different structs |
| Records.ConcatenationMerges | FastWay/Pods/nanopb/pb_decode.c:928-1076 | without required fields and fixed-count arrays, decoding a followed by b is decoding a, then decoding b into the same struct |
| Merging.SubmessageMerges | FastWay/Pods/nanopb/pb_decode.c:466-478 | two records of a required, optional or oneof submessage, without required fields and fixed-count arrays in its table, leave its cells as one record with both contents does |
| Merging.RecordsMerge | FastWay/Pods/nanopb/pb_decode.c:960-1023 | the same in a message, from any state and whatever follows |
| Merging.RestPassedOver | FastWay/Pods/nanopb/pb_decode.c:387-403 | a submessage that a zero key ends before its length is used up leaves what the records before the zero leave, and the rest of it is passed over |
| Packing.ChunksAppend | FastWay/Pods/nanopb/pb_decode.c:424-464 | packed chunks and single records append their values to the array if they fit, and make decoding fail if they do not, for counted and fixed-count arrays |
| Packing.SplittingIrrelevant | FastWay/Pods/nanopb/pb_decode.c:424-464 | two ways of splitting one list of values into packed chunks, possibly empty, and single records leave the same array, count and state, or both fail |
| Packing.EmptyChunkBegins | FastWay/Pods/nanopb/pb_decode.c:995-1008 | the one difference between an empty packed chunk and no chunk: it begins a fixed-count array |
| RequiredFields.RequiredCheckExact | FastWay/Pods/nanopb/pb_decode.c:1015-1073 | past the record loop and the fixed-count check, decoding succeeds if and only if each of the first 64 required fields occurs in the input |
| Frame.FieldFrame | FastWay/Pods/nanopb/pb_decode.c:406-483 | on every table, a record of a field, decoded or rejected, changes only bytes its entry may write: its cells, and below a submessage the values its records bring and, if it is an array entry or a oneof member, its defaults |
| Frame.RecordFrame | FastWay/Pods/nanopb/pb_decode.c:960-1023 | a record changes no byte its own field may not write, and none at all if its field is unknown |
| Frame.DecodeFrame | FastWay/Pods/nanopb/pb_decode.c:1078-1090 | pb_decode, successful or not, changes nothing in memory but the bytes its table's defaults and records are stored in |
| Clearing.SpillFound | FastWay/Pods/nanopb/pb_decode.c:855-861 | every byte outside a field's cells that its records may write is cleared by an accepted record of it, which the lemma returns |
| Clearing.SpillsExactly | FastWay/Pods/nanopb/pb_decode.c:1506-1528 | a byte outside a field's cells survives every record of it, over all memory, if and only if it is none of the bytes that spill |
| Clearing.RecordsStayExactly | FastWay/Pods/nanopb/pb_decode.c:406-483 | all records of a field, over all memory, change only the field's cells if and only if no byte spills |
| Heeded.CellsLower | FastWay/Pods/nanopb/pb_decode.c:406-483 | on every table, a record, decoded or rejected, leaves each byte that its field does not heed as it was or cleared |
| Lockstep.LockDefaults | FastWay/Pods/nanopb/pb_decode.c:911-922 | on every table, the defaults are stored in the same bytes, with the same values, whatever memory holds |
| Lockstep.CellsLock | FastWay/Pods/nanopb/pb_decode.c:406-483 | on every table, over two memories that agree on the bytes a field heeds a record of it gets the same answer, leaves the same input and stores the same bytes |
| Lockstep.NoinitLocks | FastWay/Pods/nanopb/pb_decode.c:928-1076 | the same for pb_decode_noinit and the bytes that the table's fields heed |
| Accepted.RecordAccepted | FastWay/Pods/nanopb/pb_decode.c:406-483 | a record that brings a valid value to cells that are ready for it is accepted and stores the value with its flag, count or tag |
| Loud.FieldRings | FastWay/Pods/nanopb/pb_decode.c:406-483 | for each byte that a field heeds there is a valid value whose record sets this byte, or one before it in the same cell, to a nonzero value |
| Overrun.DefaultsExactly | FastWay/Pods/nanopb/pb_decode.c:839-922 | a byte survives pb_message_set_to_defaults, whatever memory holds, if and only if it is none of the bytes the table's defaults are stored in |
| Overrun.FixedDefaultExactly | FastWay/Pods/nanopb/pb_decode.c:855-861 | the default of a fixed-count array stays inside its cell if and only if the array has at least four bytes |
| Overrun.DefaultsContainedExactly | FastWay/Pods/nanopb/pb_decode.c:911-922 | the defaults leave every byte that the table does not own as it was, whatever memory holds, if and only if what they overrun is owned by other entries |
| Overrun.OverrunsNowhere | FastWay/Pods/nanopb/pb_decode.c:855-861 | nothing is overrun if and only if every fixed-count array that the defaults reach has at least four bytes |
| OrderMatters.ShortButContained | FastWay/Pods/nanopb/pb_decode.c:855-861 | a table whose array is too short and whose defaults still write no byte that it does not own |
| Placement.DecodeInPlace | FastWay/Pods/nanopb/pb_decode.c:1078-1090 | with long fixed-count arrays, decoding in memory is decoding the struct's own bytes alone, put back in place: nothing else is read or written |
| Placement.EntryDefaults | FastWay/Pods/nanopb/pb_decode.c:839-922 | with long fixed-count arrays, initialising leaves each entry outside a shared union as its own default alone would: flag or count cleared, default value stored, array contents kept |
| Messages.DefaultsFresh | FastWay/Pods/nanopb/pb_decode.c:911-922 | on every table, initialising leaves flags, counts and which_ values cleared and proto3 fields at zero at every depth, whatever memory held before |
| Messages.DefaultsSpill | FastWay/Pods/nanopb/pb_decode.c:911-922 | initialising changes nothing before the struct and clears bytes behind it at most |
| Messages.FreshZeroed | FastWay/Pods/nanopb/pb_decode.c:855-861 | a fresh struct stays fresh when bytes of it are cleared |
| Messages.DefaultFreshSame | FastWay/Pods/nanopb/pb_encode.c:269-336 | a proto3 field the encoder leaves out has the same value as a freshly initialised one |
| ValueRoundTrip.ScalarRoundTrip | FastWay/Pods/nanopb/pb_decode.c:1321-1432 | every scalar value decodes to the bytes it was encoded from, a bool to the same truth value |
| ValueRoundTrip.StringRoundTripExact | FastWay/Pods/nanopb/pb_decode.c:1479-1499 | a string is always encoded, and accepted back if and only if it is terminated inside its field |
| RoundTrip.ArrayRoundTrip | FastWay/Pods/nanopb/pb_decode.c:424-464 | the records of an array, packed or not, counted or of fixed count, restore its count and entries, and change no other byte but to clear it behind the array |
| RoundTrip.SubmessageRoundTrip | FastWay/Pods/nanopb/pb_decode.c:1506-1528 | the encoding of a submessage decodes into its entry, wherever it lies in memory |
| RoundTrip.MessageRoundTrip | FastWay/Pods/nanopb/pb_decode.c:928-1076 | decoding an encoding into any fresh struct succeeds, uses all the bytes and restores the message |
| RoundTrip.DecodeUndoesEncode | FastWay/Pods/nanopb/pb_decode.c:928-1090 | every valid message encodes, and if the encoding is below 2^32 bytes, pb_decode of it over any memory succeeds, uses all the bytes and gives back the same message, through nesting, oneofs, packed and fixed-count arrays; outside the struct it clears bytes behind it at most, and none without short arrays |
| SentStrings.ValidExactly | FastWay/Pods/nanopb/pb_encode.c:528-550 | a message is valid if and only if it can be encoded, its which_ cells name members and its sent strings are terminated |
| SentStrings.RoundTripExactly | FastWay/Pods/nanopb/pb_decode.c:928-1090 | with which_ cells that name members, what is encoded below 2^32 bytes is accepted back if and only if every string that is sent is terminated, and then it is the same message |
| ValueRoundTrip.EncodedScalarSpells | FastWay/Pods/nanopb/pb_encode.c:197-204 | what the encoder packs are elements that decode to their value whatever memory held before |
| OldMemory.DefaultsAgree | FastWay/Pods/nanopb/pb_decode.c:911-922 | with long fixed-count arrays, structs initialised over any two memories agree, but for fixed-count arrays |
| OldMemory.OldMemoryIrrelevant | FastWay/Pods/nanopb/pb_decode.c:928-1090 | with long fixed-count arrays, pb_decode of one input over any two memories gives the same answer, leaves the same input unread, and on success messages that agree, but for fixed-count arrays |
| OldMemory.AbsentArrayKept | FastWay/Pods/nanopb/pb_decode.c:855-861 | a fixed-count array that is not received holds what memory held, from its fifth byte on |
| Received.DecodedValidExactly | FastWay/Pods/nanopb/pb_decode.c:928-1090 | with long fixed-count arrays and valid defaults, what pb_decode makes of any input it accepts is a valid message if and only if its fixed-count arrays hold valid values, at every depth |
| Received.DecodeEncodeDecode | FastWay/Pods/nanopb/pb_decode.c:928-1090 | then the message encodes, and if that takes fewer than 2^32 bytes, decoding it over any memory gives the same message again |
| Received.FilledExactly | FastWay/Pods/nanopb/pb_decode.c:855-861 | an accepted input leaves valid values in a fixed-count array of strings or bytes, over all memories, if and only if a record of it occurs or all its values start below the zero count |
| Received.ValidExactlyBrought | FastWay/Pods/nanopb/pb_decode.c:928-1090 | on tables without fixed-count arrays of submessages, or of strings or bytes inside submessages, an accepted input leaves a valid message over all memories if and only if it brings every fixed-count array of strings or bytes |
| Allocation.OverflowCheckExact | FastWay/Pods/nanopb/pb_decode.c:512-522 | on a size_t of any even width the check passes exactly if data_size times array_size fits |
| Allocation.AllocateField | FastWay/Pods/nanopb/pb_decode.c:490-533 | succeeds exactly if both sizes are nonzero, their product fits in size_t and the heap grants it; the contents are kept |
| Allocation.MakeRoom | FastWay/Pods/nanopb/pb_decode.c:622-638 | afterwards the capacity exceeds the index to be stored and is at most PB_SIZE_MAX |
| Allocation.DecodePackedPointer | FastWay/Pods/nanopb/pb_decode.c:602-655 | the array grows as needed, keeps the entries it had on every path, and on success ends with all values of the payload; the loop stops early only for an undecodable value, a full array or a refused allocation |

## Left out

- Extension fields (`decode_extension`, `encode_extension_field`, `iter_from_extension`): handlers of foreign code; tables have no extension entry, so the search for one always comes back empty-handed.
- Callback fields and custom stream callbacks: arbitrary user code; streams are the memory buffer and the sizing stream.
- Pointer fields other than the growth of packed arrays, `pb_release`, and the rest of the `PB_ENABLE_MALLOC` build.
- `pb_encode_delimited`, `pb_encode_nullterminated` and the `pb_decode_delimited` variants: one call around members that are modelled.
- Error message strings: a failure is an answer of false.
- The branches for an invalid `data_size`, an invalid type and a NULL submessage table: `Descriptor.WellFormedField` excludes such tables.
- Wrap-around of a 64-bit `size_t`: `SizeBounds.Bounded` asks for tables whose largest encoding is below 2^64 bytes.
- Descriptors for 8-bit or 16-bit `pb_size_t`, big-endian targets, and the other switches of the `PB_WITHOUT_64BIT` and `PB_ENCODE_ARRAYS_UNPACKED` builds.
- Aliasing between the struct and a stream's buffer: the two are different arrays.
- OrderExactly.OrderFreeExactly: the "only if" half asks for fields whose records can be built and seen (`Accepted.Regular`): at every depth size cells before their data, arrays with room for an entry, submessage tables with entries, proto3 defaults of zero, no nonzero default for a string of one byte or a bytes field without room, no oneof submessage whose tag is a multiple of 256, and values that encode in fewer than 2^32 bytes. The "if" half holds of every table (`FieldOrder.SwapRecords`).
- Clearing.SpillsExactly: asks for such a field too, for the record that shows the spill. That a record writes nothing else outside its cells holds of every table (`Frame.FieldFrame`).
- Clearing.RecordsStayExactly: likewise.
- OldMemory.OldMemoryIrrelevant: asks for long fixed-count arrays, because a zero count over part of a which_ cell can make it name another member, whose bytes nothing has stored. What holds of every table is `Lockstep.LockDefaults` and `Lockstep.NoinitLocks`.
- OldMemory.DefaultsAgree: asks for long fixed-count arrays, without which a default can be overrun and be no value of its type; the byte-for-byte statement for every table is `Lockstep.LockDefaults`.
- Received.ValidExactlyBrought: which entries of fixed-count arrays inside submessages occur is not read off the input; for those `Received.DecodedValidExactly` speaks of the values they hold. It also asks that known fields come with their own wire types, as `RequiredFields.RequiredCheckExact` does.
- Merging.RecordsMerge: asks that the submessage's table has no required fields and no fixed-count arrays of its own, because both are checked for each record by itself, and that its records leave its has_ or which_ cell alone (`Descriptor.LongBelow` or a cell before the data).
- DefaultValues.DefaultsStored: asks for long fixed-count arrays; what short ones overrun is `Overrun.DefaultsExactly`.
- RoundTrip.DecodeUndoesEncode: asks for long fixed-count arrays or for has_, _count and which_ cells that lie before their data (`Descriptor.Tame`), where the generator declares them (for example `FastWay/Pods/GoogleDataTransport/GoogleDataTransport/GDTCCTLibrary/Protogen/nanopb/cct.nanopb.h:104`).
- Allocation.DecodePackedPointer: `pb_realloc` is a heap that grants requests up to a fixed size, and the size cell and the pointer cell of the field are variables.
- The Swift app around the codec: user interface and Firebase plumbing.
