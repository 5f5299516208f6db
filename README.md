# MessagePack.swift encoder, modelled and proved in Dafny

This project models the encoder of MessagePack.swift (`Sources/MessagePack/Pack.swift`):

- `packInteger(value, parts)` splits an unsigned 64-bit value into `parts` big-endian bytes;
- `packPositiveInteger` and `packNegativeInteger` are the unsigned and signed width ladders;
- `pack` encodes a `MessagePackValue` into bytes. It covers every case: nil, booleans, signed and unsigned integers, float and double bit patterns, strings, binary blobs, arrays, maps and extended values. Arrays and maps are encoded recursively.

The encoder is pure code, so the model is pure Dafny: a `Value` datatype, and one function per Swift function. `pack` gets one header function per case that chooses a header by length.

The proofs state what the bytes mean:

- every ladder picks the marker and width its range calls for;
- every header carries the length or count big-endian;
- payloads are appended unchanged;
- containers concatenate their children's encodings in order;
- the encoding reads back to the value packed. A reference reader of the MessagePack wire format, written from the format's marker table, reads it back and consumes exactly the bytes packed, whatever follows them.

The reader is not the library's `unpack`. It exists only to give the encoder's output a meaning.

Reading back is exact up to one identification. `.Int(n)` with n ≥ 0 is encoded exactly like `.UInt(n)`, and the library's equality also treats the two as the same value. The model calls this equivalence `Equiv` and defines it through `Normalize`, which rewrites every non-negative `Int` as a `UInt`. `Equiv` compares map entries in their iteration order, which is stricter than the library's dictionary equality: that equality ignores order, so two equal dictionaries that iterate differently pack to different bytes (both orders are accepted in `Tests/MessagePackTests/ExampleTests.swift`). From the read-back theorem it follows that:

- two values are encoded to the same bytes exactly when they are equivalent under `Equiv`;
- no encoding is a proper prefix of another.

The model keeps the thresholds the code uses. Where they differ from the smallest form the MessagePack format allows, the code is followed:

- fixstr is used only up to 25 (0x19) bytes, so strings of 26 to 31 bytes take str 8;
- fixarray and fixmap are used only up to 14 (0xe) elements, so 15 elements take the 16-bit form;
- the negative ladder uses int 8 only from -0x7f, int 16 only from -0x7fff and int 32 only from -0x7fff_ffff. So -0x80, -0x8000 and -0x8000_0000 each take the next wider form.

The MessagePack format puts the fixstr boundary at 31 → 32 bytes; the code puts it at 25 → 26, and the model follows the code. Every form the code emits is still valid MessagePack and reads back to its value.

In `0xe0 + 0x1f & b` (Pack.swift:46), Swift binds `&` tighter than `+`, so it is `0xe0 + (0x1f & b)`.

Files, in dependency order:

| file | module | contents |
|---|---|---|
| bytes.dfy | `Bytes` | fixed-width integer newtypes, truncation, `|` and `&` on bytes, big-endian reading, division facts |
| values.dfy | `Values` | the `Value` datatype, the length limits (`Packable`), `Normalize` and `Equiv` |
| pack.dfy | `Encoder` | `PackInteger`, `PackPositiveInteger`, `PackNegativeInteger`, the header functions, `Pack` |
| pack_properties.dfy | `PackProperties` | what each ladder, header and payload means; the encoder respects `Equiv` |
| reference_decoder.dfy | `ReferenceDecoder` | the reference reader of the wire format |
| round_trip.dfy | `RoundTrip` | read-back of every encoding, and its consequences |
| test_vectors.dfy | `TestVectors` | the encodings the library's unit tests expect, derived from the model |

## Model

| member | source | states |
|---|---|---|
| Bytes.BitOrA0 | Sources/MessagePack/Pack.swift:100 | `0xa0 \| count` is 0xa0 + count for every count below 0x20 |
| Bytes.BitOrNibble | Sources/MessagePack/Pack.swift:134 | `0x90 \| count` (and `0x80 \| count` at line 150) is marker + count for every count below 0x10 |
| Bytes.BitAndLowFive | Sources/MessagePack/Pack.swift:46 | masking a byte in [0xe0, 0xff] with 0x1f gives its distance from 0xe0 |
| Encoder.PackInteger | Sources/MessagePack/Pack.swift:9-14 | defined for 1 to 8 parts (line 10, and the 64-bit shift of line 12); yields exactly `parts` bytes; what they hold is stated by PackIntegerBigEndian |
| Encoder.PackPositiveInteger | Sources/MessagePack/Pack.swift:21-34 | one to nine bytes; the ladder is stated by PackPositiveIntegerLadder |
| Encoder.PackNegativeInteger | Sources/MessagePack/Pack.swift:41-59 | defined only for value < 0 (the precondition at line 42); one to nine bytes |
| Encoder.StringHeader | Sources/MessagePack/Pack.swift:97-107 | one to five bytes; meaning in PackStringLayout |
| Encoder.BinaryHeader | Sources/MessagePack/Pack.swift:115-123 | two to five bytes: there is no one-byte form |
| Encoder.ArrayHeader | Sources/MessagePack/Pack.swift:131-139 | one to five bytes; meaning in PackArrayLayout |
| Encoder.MapHeader | Sources/MessagePack/Pack.swift:147-155 | one to five bytes, for fewer than 0xffff_ffff entries (line 145) |
| Encoder.ExtendedHeader | Sources/MessagePack/Pack.swift:163-182 | two to six bytes: a marker, possibly a length, then the type byte |
| Encoder.Pack | Sources/MessagePack/Pack.swift:66-186 | defined on values within the length limits (lines 95, 113, 129, 145, 161); never empty |
| Encoder.PackEach | Sources/MessagePack/Pack.swift:141 | at least one byte per element |
| Encoder.PackPairs | Sources/MessagePack/Pack.swift:157 | at least two bytes per entry |
| Encoder.FlattenPairs | Sources/MessagePack/Pack.swift:157 | `flatMap { [$0, $1] }` yields two values per entry |
| Values.EquivCases | Sources/MessagePack/Pack.swift:74-82 | `.Int(n)` and `.UInt(m)` are equivalent iff n = m; arrays and maps iff equivalent element by element (entry by entry, key and value) in order; other values iff equal |
| Values.NormalizeIdempotent | Sources/MessagePack/Pack.swift:74-82 | a normalized value is its own representative |
| Values.NormalizePackable | Sources/MessagePack/Pack.swift:127-157 | normalizing keeps a value within the encoder's length limits, and out of them |
| PackProperties.PackIntegerBigEndian | Sources/MessagePack/Pack.swift:9-14 | the bytes read most significant first give the value mod 256^parts |
| PackProperties.PackIntegerSplit | Sources/MessagePack/Pack.swift:11-12 | all but the last byte are the split of value / 256; the last is the low byte |
| PackProperties.PackIntegerRoundTrip | Sources/MessagePack/Pack.swift:9-14 | a value below 256^parts is read back exactly |
| PackProperties.PackIntegerOfBigEndian | Sources/MessagePack/Pack.swift:9-14 | the converse: splitting the number a string of one to eight bytes reads as gives back the string |
| PackProperties.PackIntegerOneByte | Sources/MessagePack/Pack.swift:11-12 | in one part, a byte is split into itself |
| PackProperties.PackIntegerSnoc | Sources/MessagePack/Pack.swift:11-12 | one more part appends the low byte to the split of value / 256 |
| PackProperties.MarkedPackInteger | Sources/MessagePack/Pack.swift:28-30 | a marker followed by packInteger of a value that fits is that marker with a field holding the value |
| PackProperties.PackPositiveIntegerLadder | Sources/MessagePack/Pack.swift:21-34 | fixint up to 0x7f, then 0xcc/0xcd/0xce/0xcf fields holding the value, at the code's boundaries |
| PackProperties.PackNegativeIntegerLadder | Sources/MessagePack/Pack.swift:41-59 | negative fixint from -0x20, int 8 from -0x7f, int 16 from -0x7fff, int 32 from -0x7fff_ffff, int 64 below; each holds the value mod 2^bits |
| PackProperties.PackNegativeIntegerWide | Sources/MessagePack/Pack.swift:49-58 | below -0x7f, the 0xd1/0xd2/0xd3 fields hold the value's low 16, 32 or 64 bits |
| PackProperties.NegativeFixintIsLowByte | Sources/MessagePack/Pack.swift:45-46 | the negative fixint byte 0xe0 + (0x1f & b) is both 0xe0 + value mod 32 and value + 256 |
| PackProperties.PackFixedShapes | Sources/MessagePack/Pack.swift:68-90 | nil is 0xc0; booleans are 0xc3/0xc2; a non-negative `Int` is packed as the `UInt`; a negative one by the negative ladder; float and double bit patterns big-endian after 0xca/0xcb |
| PackProperties.PackStringLayout | Sources/MessagePack/Pack.swift:92-109 | header then UTF-8 bytes unchanged; fixstr 0xa0 + length up to 0x19, str 8/16/32 after that |
| PackProperties.PackBinaryLayout | Sources/MessagePack/Pack.swift:111-125 | header then bytes unchanged; bin 8/16/32 with the length |
| PackProperties.PackArrayLayout | Sources/MessagePack/Pack.swift:127-141 | header then the elements' encodings in order; fixarray 0x90 + count up to 0xe, array 16/32 after that |
| PackProperties.PackMapLayout | Sources/MessagePack/Pack.swift:143-157 | header then key and value encodings per entry in order; fixmap 0x80 + count up to 0xe, map 16/32 after that |
| PackProperties.PackExtendedLayout | Sources/MessagePack/Pack.swift:159-184 | header then payload unchanged; fixext 1/2/4/8/16 for those exact sizes, ext 8/16/32 otherwise (zero included), type byte = type mod 256 last |
| PackProperties.PackEachAppend | Sources/MessagePack/Pack.swift:141 | `flatMap(pack)` over a concatenation is the concatenation |
| PackProperties.PackPairsFlatten | Sources/MessagePack/Pack.swift:157 | packing the entries is packing the flat key, value, … list |
| PackProperties.PackNormalize | Sources/MessagePack/Pack.swift:74-82 | normalizing a value does not change its encoding, at any depth |
| PackProperties.PackEachNormalize | Sources/MessagePack/Pack.swift:141 | the same for an array's elements |
| PackProperties.PackPairsNormalize | Sources/MessagePack/Pack.swift:157 | the same for a map's entries |
| PackProperties.PackRespectsEquiv | Sources/MessagePack/Pack.swift:74-82 | values equivalent under `Equiv` (which compares map entries in order) are packed to the same bytes |
| RoundTrip.DecodePackPositive | Sources/MessagePack/Pack.swift:21-34 | every unsigned encoding reads back as its `UInt`, consuming exactly its bytes |
| RoundTrip.DecodePackNegative | Sources/MessagePack/Pack.swift:41-59 | every negative encoding reads back as its `Int`, consuming exactly its bytes |
| RoundTrip.DecodePackSigned | Sources/MessagePack/Pack.swift:47-58 | below -0x20, the signed fields read back as the value |
| RoundTrip.SignedFieldDecodes | Sources/MessagePack/Pack.swift:49-58 | a field holding the two's-complement pattern of an in-range value reads back as that value |
| RoundTrip.StringHeaderDecodes | Sources/MessagePack/Pack.swift:97-107 | every string header announces a string of that length, starting right after the header |
| RoundTrip.BinaryHeaderDecodes | Sources/MessagePack/Pack.swift:115-123 | every binary header announces a blob of that length, starting right after the header |
| RoundTrip.ExtendedHeaderDecodes | Sources/MessagePack/Pack.swift:163-182 | every extended header announces a payload of that length, with the type byte last |
| RoundTrip.ExtendedCountedDecodes | Sources/MessagePack/Pack.swift:176-181 | the same for the ext 8/16/32 forms |
| RoundTrip.ArrayHeaderDecodes | Sources/MessagePack/Pack.swift:131-139 | every array header announces that many elements |
| RoundTrip.MapHeaderDecodes | Sources/MessagePack/Pack.swift:147-155 | every map header announces that many entries |
| RoundTrip.DecodePackString | Sources/MessagePack/Pack.swift:92-109 | a packed string reads back as itself, consuming exactly its bytes |
| RoundTrip.DecodePackBinary | Sources/MessagePack/Pack.swift:111-125 | a packed blob reads back as itself |
| RoundTrip.DecodePackExtended | Sources/MessagePack/Pack.swift:159-184 | a packed extended value reads back as itself, type included |
| RoundTrip.DecodePackScalar | Sources/MessagePack/Pack.swift:66-125 | every non-container value reads back as its normal form, consuming exactly its bytes |
| RoundTrip.ArrayReadsBack | Sources/MessagePack/Pack.swift:127-141 | an array header followed by encodings that read as n items reads as the array of them |
| RoundTrip.MapReadsBack | Sources/MessagePack/Pack.swift:143-157 | a map header followed by encodings that read as 2n items reads as the map of those entries |
| RoundTrip.DecodePackArray | Sources/MessagePack/Pack.swift:127-141 | if the elements read back, the packed array reads back as its normal form |
| RoundTrip.DecodePackMap | Sources/MessagePack/Pack.swift:143-157 | if the flattened entries read back, the packed map reads back as its normal form |
| RoundTrip.PackArraySplit | Sources/MessagePack/Pack.swift:141 | a packed array is its header followed by its elements' encodings |
| RoundTrip.PackMapSplit | Sources/MessagePack/Pack.swift:157 | a packed map is its header followed by its entries' encodings |
| RoundTrip.PairUpFlatten | Sources/MessagePack/Pack.swift:157 | pairing up the flat key, value, … list gives the entries back |
| RoundTrip.NormalizeEachFlatten | Sources/MessagePack/Pack.swift:157 | flattening commutes with normalizing |
| RoundTrip.DecodePack | Sources/MessagePack/Pack.swift:66-186 | every packable value, followed by anything, reads back as its normal form, consuming exactly its encoding |
| RoundTrip.DecodePackEach | Sources/MessagePack/Pack.swift:141 | the concatenated encodings of a list read back as the normalized list, consuming exactly them |
| RoundTrip.RoundTripEquiv | Sources/MessagePack/Pack.swift:66-186 | reading a value's encoding succeeds, consumes all of it, and gives a value equivalent to the one packed |
| RoundTrip.PackSameIffEquiv | Sources/MessagePack/Pack.swift:66-186 | two values are packed to the same bytes iff they are equivalent under `Equiv` |
| RoundTrip.PackSelfDelimiting | Sources/MessagePack/Pack.swift:66-186 | no encoding is a proper prefix of another: equal buffers that start with two encodings start with the same one |
| TestVectors.PositiveFixintVectors | Tests/MessagePackTests/IntegerTests.swift:58-69 | `.Int(1)` is [0x01] and `.UInt(42)` is [0x2a] |
| TestVectors.Unsigned8Vector | Tests/MessagePackTests/IntegerTests.swift:76-78 | `.UInt(0xff)` is [0xcc, 0xff] |
| TestVectors.Unsigned16Vector | Tests/MessagePackTests/IntegerTests.swift:85-87 | `.UInt(0xffff)` is [0xcd, 0xff, 0xff] |
| TestVectors.Unsigned32Vector | Tests/MessagePackTests/IntegerTests.swift:94-96 | `.UInt(0xffff_ffff)` is 0xce and four 0xff |
| TestVectors.Unsigned64Vector | Tests/MessagePackTests/IntegerTests.swift:103-105 | `.UInt(0xffff_ffff_ffff_ffff)` is 0xcf and eight 0xff |
| TestVectors.NegativeFixintVector | Tests/MessagePackTests/IntegerTests.swift:46-48 | `.Int(-1)` is [0xff] |
| TestVectors.Signed8Vector | Tests/MessagePackTests/IntegerTests.swift:112-114 | `.Int(-0x7f)` is [0xd0, 0x81] |
| TestVectors.Signed16Vector | Tests/MessagePackTests/IntegerTests.swift:121-123 | `.Int(-0x7fff)` is [0xd1, 0x80, 0x01] |
| TestVectors.Signed32Vector | Tests/MessagePackTests/IntegerTests.swift:130-132 | `.Int(-0x1_0000)` is [0xd2, 0xff, 0xff, 0x00, 0x00] |
| TestVectors.Signed64Vector | Tests/MessagePackTests/IntegerTests.swift:139-141 | `.Int(-0x1_0000_0000)` is 0xd3, four 0xff and four 0x00 |
| TestVectors.StringVectors | Tests/MessagePackTests/StringTests.swift:44-59 | a 13-byte string packs as 0xad then its bytes; a 32-byte one as 0xd9, 0x20 then its bytes |
| TestVectors.FixarrayVector | Tests/MessagePackTests/ArrayTests.swift:24-28 | the array of `.UInt(0)` … `.UInt(4)` is [0x95, 0x00, 0x01, 0x02, 0x03, 0x04] |
| TestVectors.Fixext1Vector | Tests/MessagePackTests/ExtendedTests.swift:28-32 | type 5 with a one-byte payload packs as 0xd4, 0x05 then the payload |
| TestVectors.ExtendedVectors | Tests/MessagePackTests/ExtendedTests.swift:98-117 | type 5 with 7 bytes packs as 0xc7, 0x07, 0x05 then the payload; with 0x100 bytes as 0xc8, 0x01, 0x00, 0x05 then the payload |
| TestVectors.BinaryVectors | Tests/MessagePackTests/BinaryTests.swift:6-7 | the bytes 0x00 … 0x04 pack as [0xc4, 0x05] then the bytes; for any payload of 0xff, 0x100 and 0x1_0000 bytes (the tests' zero bytes among them, lines 36-67) the header is [0xc4, 0xff], [0xc5, 0x01, 0x00] and [0xc6, 0x00, 0x01, 0x00, 0x00], followed by the payload |
| TestVectors.PackEachNils | Sources/MessagePack/Pack.swift:141 | elements that are all `.Nil` pack as one 0xc0 each |
| TestVectors.Array16Vector | Tests/MessagePackTests/ArrayTests.swift:38-42 | sixteen `.Nil` elements pack as [0xdc, 0x00, 0x10] then sixteen 0xc0 |
| TestVectors.FixmapVector | Tests/MessagePackTests/MapTests.swift:65-68 | `["c": "cookie"]` packs as [0x81, 0xa1, 0x63, 0xa6, 0x63, 0x6f, 0x6f, 0x6b, 0x69, 0x65] |
| TestVectors.TwoEntryMap | Sources/MessagePack/Pack.swift:143-157 | a map of two entries packs as its header, then the first key and value, then the second key and value |
| TestVectors.ExampleCompactFirstVector | Tests/MessagePackTests/ExampleTests.swift:21-29 | `["compact": true, "schema": 0]` iterated with "compact" first packs as `correctA`: 0x82, 0xa7, "compact", 0xc3, 0xa6, "schema", 0x00 |
| TestVectors.ExampleSchemaFirstVector | Tests/MessagePackTests/ExampleTests.swift:21-29 | the same map iterated with "schema" first packs as `correctB`, the other encoding the test accepts |
| TestVectors.LongStringVectors | Tests/MessagePackTests/StringTests.swift:69-85 | any 0x1000-byte string packs as [0xda, 0x10, 0x00] then its bytes; any 0x1_0000-byte one as [0xdb, 0x00, 0x01, 0x00, 0x00] then its bytes |
| TestVectors.Array32Vector | Tests/MessagePackTests/ArrayTests.swift:52-56 | 0x1_0000 `.Nil` elements pack as [0xdd, 0x00, 0x01, 0x00, 0x00] then 0x1_0000 bytes 0xc0 |
| TestVectors.MapPrefixVectors | Tests/MessagePackTests/MapTests.swift:23-31 | a map of 16 entries starts with [0xde, 0x00, 0x10] and one of 0x1_0000 entries with [0xdf, 0x00, 0x01, 0x00, 0x00] (lines 77-88), followed by the entries' encodings |
| TestVectors.FixextVectors | Tests/MessagePackTests/ExtendedTests.swift:42-88 | type 5 with payloads of 2, 4, 8 and 16 bytes packs as 0xd5, 0xd6, 0xd7 and 0xd8, then 0x05, then the payload |
| TestVectors.Ext32Vector | Tests/MessagePackTests/ExtendedTests.swift:126-130 | type 5 with 0x1_0000 bytes packs as [0xc9, 0x00, 0x01, 0x00, 0x00, 0x05] then the payload |

## Left out

- `unpack`, its compatibility mode and `DispatchData` are not modelled. The reference reader only gives the encoder's output a meaning.
- Floating point: `.Float` and `.Double` carry their IEEE-754 bit patterns (`unsafeBitCast`, lines 85 and 89), so no float arithmetic or NaN comparison is modelled.
- Strings carry their UTF-8 bytes: the conversion from Swift `String` to UTF-8 (`string.utf8`, line 93) is not modelled.
- A map is a sequence of entries in the order the dictionary yields them. Swift dictionary hashing and key uniqueness are not modelled. The encoder's output depends on the iteration order only through that entry sequence, which the model takes as input: the same dictionary iterated in two orders packs to two byte strings.
- `LiteralConvertibles.swift`, the `Foundation.Data` type (modelled as `seq<byte>`) and the XCTest framework are not modelled. `MessagePack.swift`, which defines the value type and its equality, is not part of this model.
- `Equiv` is not the library's equality on maps: it compares map entries in iteration order, where the library's dictionary equality ignores order. PackRespectsEquiv and PackSameIffEquiv hold for `Equiv`. They do not hold for the library's equality, because equal dictionaries that iterate in different orders pack to different bytes.
- Encoder.Pack: the traps on lengths of 2^32 and more (the `UInt32(count)` conversions and the preconditions at lines 95, 113, 129, 161, and `count < 0xffff_ffff` for maps at line 145) are preconditions (`Packable`), not modelled runtime failures.
- Encoder.PackNegativeInteger: the `precondition(value < 0)` at line 42 is a precondition, not a modelled trap.
- Encoder.PackInteger: the `precondition(parts > 0)` at line 10 and the trap on a shift of 64 bits or more at line 12 (more than 8 parts) are preconditions (`0 < parts <= 8`), not modelled runtime failures. The encoder only passes 2, 4 and 8.
