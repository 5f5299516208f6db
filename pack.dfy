/**
 * The encoder of Sources/MessagePack/Pack.swift: `packInteger`,
 * `packPositiveInteger`, `packNegativeInteger` and `pack`.
 *
 * Every function returns a freshly built byte sequence, as the Swift code
 * does. Each `pack` case that chooses a header by length gets its own header
 * function here (the Swift code assigns `prefix` in a `switch`); the lemmas
 * after the functions state what each header and payload means.
 *
 * The thresholds are the ones the code uses, which are not always the
 * smallest form the MessagePack format allows: fixstr only up to 25 bytes,
 * fixarray and fixmap only up to 14 elements, and the negative ladder cuts at
 * -0x7f, -0x7fff and -0x7fff_ffff.
 */
module Encoder {
  import opened Bytes
  import opened Values

  /** `packInteger(value, parts)`: byte i is `value >> 8*(parts-1-i)`
      truncated to eight bits, most significant byte first. For an unsigned
      value, shifting right by 8k bits is dividing by 256^k. A shift of 64
      bits or more traps, so at most eight parts are allowed. */
  function PackInteger(value: uint64, parts: nat): (r: seq<byte>)
    requires 0 < parts <= 8
    ensures |r| == parts
  {
    seq(parts, i requires 0 <= i < parts => Truncate(value as int / Pow256(parts - 1 - i)))
  }

  /** `packPositiveInteger`: the unsigned width ladder. */
  function PackPositiveInteger(value: uint64): (r: seq<byte>)
    ensures 0 < |r| <= 9
  {
    if value <= 0x7f then [Truncate(value as int)]
    else if value <= 0xff then [0xcc, Truncate(value as int)]
    else if value <= 0xffff then [0xcd] + PackInteger(value, 2)
    else if value <= 0xffff_ffff then [0xce] + PackInteger(value, 4)
    else [0xcf] + PackInteger(value, 8)
  }

  /** `packNegativeInteger`: the signed width ladder for a negative value.
      The `bitPattern` conversions of the Swift code reinterpret the value as
      an unsigned number of the same width, which is the value modulo 2^bits
      (Dafny's `%` is Euclidean). */
  function PackNegativeInteger(value: int64): (r: seq<byte>)
    requires value < 0
    ensures 0 < |r| <= 9
  {
    if value >= -0x20 then
      var low := Truncate(value as int);
      BitAndLowFive(low);
      [0xe0 + BitAnd(0x1f, low)]
    else if value >= -0x7f then [0xd0, Truncate(value as int)]
    else if value >= -0x7fff then
      [0xd1] + PackInteger((value as int % 0x1_0000) as uint64, 2)
    else if value >= -0x7fff_ffff then
      [0xd2] + PackInteger((value as int % 0x1_0000_0000) as uint64, 4)
    else
      [0xd3] + PackInteger((value as int % 0x1_0000_0000_0000_0000) as uint64, 8)
  }

  /** The header of a string of `count` UTF-8 bytes. */
  function StringHeader(count: nat): (r: seq<byte>)
    requires count <= MaxCount
    ensures 0 < |r| <= 5
  {
    if count <= 0x19 then [BitOr(0xa0, count as byte)]
    else if count <= 0xff then [0xd9, count as byte]
    else if count <= 0xffff then [0xda] + PackInteger(count as uint64, 2)
    else [0xdb] + PackInteger(count as uint64, 4)
  }

  /** The header of a binary blob of `count` bytes: there is no immediate
      form. */
  function BinaryHeader(count: nat): (r: seq<byte>)
    requires count <= MaxCount
    ensures 1 < |r| <= 5
  {
    if count <= 0xff then [0xc4, count as byte]
    else if count <= 0xffff then [0xc5] + PackInteger(count as uint64, 2)
    else [0xc6] + PackInteger(count as uint64, 4)
  }

  /** The header of an array of `count` elements. */
  function ArrayHeader(count: nat): (r: seq<byte>)
    requires count <= MaxCount
    ensures 0 < |r| <= 5
  {
    if count <= 0xe then [BitOr(0x90, count as byte)]
    else if count <= 0xffff then [0xdc] + PackInteger(count as uint64, 2)
    else [0xdd] + PackInteger(count as uint64, 4)
  }

  /** The header of a map of `count` entries. */
  function MapHeader(count: nat): (r: seq<byte>)
    requires count < MaxCount
    ensures 0 < |r| <= 5
  {
    if count <= 0xe then [BitOr(0x80, count as byte)]
    else if count <= 0xffff then [0xde] + PackInteger(count as uint64, 2)
    else [0xdf] + PackInteger(count as uint64, 4)
  }

  /** The header of an extended value with a `count`-byte payload: the
      fixext markers for the five exact sizes, the ext 8/16/32 forms
      otherwise; the type byte (`UInt8(bitPattern: type)`) comes last. */
  function ExtendedHeader(extType: int8, count: nat): (r: seq<byte>)
    requires count <= MaxCount
    ensures 1 < |r| <= 6
  {
    var unsignedType := Truncate(extType as int);
    if count == 1 then [0xd4, unsignedType]
    else if count == 2 then [0xd5, unsignedType]
    else if count == 4 then [0xd6, unsignedType]
    else if count == 8 then [0xd7, unsignedType]
    else if count == 16 then [0xd8, unsignedType]
    else if count <= 0xff then [0xc7, count as byte, unsignedType]
    else if count <= 0xffff then [0xc8] + PackInteger(count as uint64, 2) + [unsignedType]
    else [0xc9] + PackInteger(count as uint64, 4) + [unsignedType]
  }

  /** `pack`: the encoding of one value. */
  function Pack(v: Value): (r: seq<byte>)
    requires Packable(v)
    ensures |r| > 0
    decreases v
  {
    match v
    case Nil => [0xc0]
    case Bool(b) => [if b then 0xc3 else 0xc2]
    case Int(n) =>
      if n >= 0 then PackPositiveInteger(n as uint64) else PackNegativeInteger(n)
    case UInt(n) => PackPositiveInteger(n)
    case Float(bits) => [0xca] + PackInteger(bits as uint64, 4)
    case Double(bits) => [0xcb] + PackInteger(bits, 8)
    case String(utf8) => StringHeader(|utf8|) + utf8
    case Binary(data) => BinaryHeader(|data|) + data
    case Array(items) => ArrayHeader(|items|) + PackEach(items)
    case Map(pairs) => MapHeader(|pairs|) + PackPairs(pairs)
    case Extended(extType, data) => ExtendedHeader(extType, |data|) + data
  }

  /** `array.flatMap(pack)`: the encodings of the elements, in order. */
  function PackEach(items: seq<Value>): (r: seq<byte>)
    requires forall i | 0 <= i < |items| :: Packable(items[i])
    ensures |r| >= |items|
    decreases items
  {
    if items == [] then [] else Pack(items[0]) + PackEach(items[1..])
  }

  /** `dict.flatMap { [$0, $1] }.flatMap(pack)`: for each entry, the encoding
      of its key and then of its value. */
  function PackPairs(pairs: seq<(Value, Value)>): (r: seq<byte>)
    requires forall i | 0 <= i < |pairs| :: Packable(pairs[i].0) && Packable(pairs[i].1)
    ensures |r| >= 2 * |pairs|
    decreases pairs
  {
    if pairs == [] then []
    else
      assert pairs[0] in pairs;
      assert pairs[0].0 < pairs[0] && pairs[0].1 < pairs[0];
      Pack(pairs[0].0) + Pack(pairs[0].1) + PackPairs(pairs[1..])
  }

  /** The list `dict.flatMap { [$0, $1] }` builds: key, value, key, value... */
  function FlattenPairs(pairs: seq<(Value, Value)>): (r: seq<Value>)
    ensures |r| == 2 * |pairs|
  {
    if pairs == [] then [] else [pairs[0].0, pairs[0].1] + FlattenPairs(pairs[1..])
  }
}
