/**
 * A reference reader for the MessagePack wire format, written from the
 * format's marker table. It exists to state what the encoder's output means
 * (that it reads back to the value packed, and that it is self-delimiting);
 * it is not a model of the library's own `unpack`.
 *
 * Reading one value reports how many bytes it consumed, so back-to-back
 * values in one buffer can be read one after another.
 */
module ReferenceDecoder {
  import opened Bytes
  import opened Values

  datatype DecodeError = InsufficientData | InvalidData

  datatype Result<T> = Success(value: T) | Failure(error: DecodeError) {
    predicate IsFailure() {
      Failure?
    }

    function PropagateFailure<U>(): Result<U>
      requires Failure?
    {
      Failure(error)
    }

    function Extract(): T
      requires Success?
    {
      value
    }
  }

  /** The `width`-byte big-endian unsigned field that starts at `at`. */
  function ReadUInt(bs: seq<byte>, at: nat, width: nat): (r: Result<nat>)
    ensures r.Success? ==> at + width <= |bs| && r.value < Pow256(width)
    ensures r.Failure? ==> r.error == InsufficientData
  {
    if at + width <= |bs| then Success(FromBigEndian(bs[at..at + width]))
    else Failure(InsufficientData)
  }

  /** A `width`-byte field read as a two's-complement signed number. */
  function ToSigned(u: nat, width: nat): (r: int)
    requires u < Pow256(width)
    ensures -(Pow256(width) as int) <= 2 * r < Pow256(width)
    ensures r % Pow256(width) == u
  {
    if 2 * u >= Pow256(width) then
      DivModUnique(u - Pow256(width), Pow256(width), -1, u);
      u - Pow256(width)
    else
      DivModUnique(u, Pow256(width), 0, u);
      u
  }

  /** What a length field counts the parts of. */
  datatype Kind = StringKind | BinaryKind | ExtendedKind | ArrayKind | MapKind

  /** What a fixed-width field after the first byte holds. */
  datatype Field = UnsignedField | SignedField | Float32Field | Float64Field | LengthField(kind: Kind)

  /** The MessagePack marker table: what a first byte announces. */
  datatype Format =
    | Invalid
      /** The whole value is in the first byte. */
    | Constant(value: Value)
      /** A string, blob, extended value, array or map whose length is in
          the first byte (for an extended value: the payload length). */
    | Immediate(kind: Kind, count: nat)
      /** A `width`-byte big-endian field follows the first byte. */
    | Fixed(field: Field, width: nat)

  function FormatOf(m: byte): (f: Format)
    ensures f.Fixed? ==> f.width in {1, 2, 4, 8}
    ensures f.Fixed? && f.field.Float32Field? ==> f.width == 4
    ensures f.Fixed? && f.field.Float64Field? ==> f.width == 8
  {
    if m <= 0x7f then Constant(UInt(m as int as uint64))
    else if m <= 0x8f then Immediate(MapKind, (m - 0x80) as nat)
    else if m <= 0x9f then Immediate(ArrayKind, (m - 0x90) as nat)
    else if m <= 0xbf then Immediate(StringKind, (m - 0xa0) as nat)
    else if m == 0xc0 then Constant(Nil)
    else if m == 0xc1 then Invalid
    else if m == 0xc2 then Constant(Bool(false))
    else if m == 0xc3 then Constant(Bool(true))
    else if m == 0xc4 then Fixed(LengthField(BinaryKind), 1)
    else if m == 0xc5 then Fixed(LengthField(BinaryKind), 2)
    else if m == 0xc6 then Fixed(LengthField(BinaryKind), 4)
    else if m == 0xc7 then Fixed(LengthField(ExtendedKind), 1)
    else if m == 0xc8 then Fixed(LengthField(ExtendedKind), 2)
    else if m == 0xc9 then Fixed(LengthField(ExtendedKind), 4)
    else if m == 0xca then Fixed(Float32Field, 4)
    else if m == 0xcb then Fixed(Float64Field, 8)
    else if m == 0xcc then Fixed(UnsignedField, 1)
    else if m == 0xcd then Fixed(UnsignedField, 2)
    else if m == 0xce then Fixed(UnsignedField, 4)
    else if m == 0xcf then Fixed(UnsignedField, 8)
    else if m == 0xd0 then Fixed(SignedField, 1)
    else if m == 0xd1 then Fixed(SignedField, 2)
    else if m == 0xd2 then Fixed(SignedField, 4)
    else if m == 0xd3 then Fixed(SignedField, 8)
    else if m == 0xd4 then Immediate(ExtendedKind, 1)
    else if m == 0xd5 then Immediate(ExtendedKind, 2)
    else if m == 0xd6 then Immediate(ExtendedKind, 4)
    else if m == 0xd7 then Immediate(ExtendedKind, 8)
    else if m == 0xd8 then Immediate(ExtendedKind, 16)
    else if m == 0xd9 then Fixed(LengthField(StringKind), 1)
    else if m == 0xda then Fixed(LengthField(StringKind), 2)
    else if m == 0xdb then Fixed(LengthField(StringKind), 4)
    else if m == 0xdc then Fixed(LengthField(ArrayKind), 2)
    else if m == 0xdd then Fixed(LengthField(ArrayKind), 4)
    else if m == 0xde then Fixed(LengthField(MapKind), 2)
    else if m == 0xdf then Fixed(LengthField(MapKind), 4)
    else Constant(Int((m as int - 0x100) as int64))
  }

  /** Reads one value from the front of `bs`: the value and the number of
      bytes it took. */
  function Decode(bs: seq<byte>): (r: Result<(Value, nat)>)
    ensures r.Success? ==> 0 < r.value.1 <= |bs|
    decreases |bs|, 3
  {
    if |bs| == 0 then Failure(InsufficientData) else DecodeFormat(bs)
  }

  /** A value read according to what its first byte announces. */
  function DecodeFormat(bs: seq<byte>): (r: Result<(Value, nat)>)
    requires |bs| > 0
    ensures r.Success? ==> 0 < r.value.1 <= |bs|
    decreases |bs|, 2
  {
    match FormatOf(bs[0])
    case Invalid => Failure(InvalidData)
    case Constant(v) => Success((v, 1))
    case Immediate(kind, n) => DecodeBody(bs, kind, 1, n)
    case Fixed(field, w) =>
      match ReadUInt(bs, 1, w)
      case Failure(e) => Failure(e)
      case Success(u) => DecodeField(bs, field, w, u)
  }

  /** A value whose first byte announced a `width`-byte field holding `u`. */
  function DecodeField(bs: seq<byte>, field: Field, width: nat, u: nat): (r: Result<(Value, nat)>)
    requires width in {1, 2, 4, 8} && 1 + width <= |bs| && u < Pow256(width)
    requires field.Float32Field? ==> width == 4
    requires field.Float64Field? ==> width == 8
    ensures r.Success? ==> 0 < r.value.1 <= |bs|
    decreases |bs|, 1
  {
    Pow256Values();
    match field
    case UnsignedField => Success((UInt(u as uint64), 1 + width))
    case SignedField => Success((Int(ToSigned(u, width) as int64), 1 + width))
    case Float32Field => Success((Float(u as uint32), 1 + width))
    case Float64Field => Success((Double(u as uint64), 1 + width))
    case LengthField(kind) => DecodeBody(bs, kind, 1 + width, u)
  }

  /** The part of a value after its length information, which starts at
      `at`: `count` bytes of a string or blob, the type byte and `count`
      payload bytes of an extended value, `count` elements of an array, or
      `count` entries (2 * `count` values, key then value) of a map. */
  function DecodeBody(bs: seq<byte>, kind: Kind, at: nat, count: nat): (r: Result<(Value, nat)>)
    requires 0 < at <= |bs|
    ensures r.Success? ==> 0 < r.value.1 <= |bs|
    decreases |bs|, 0
  {
    match kind
    case StringKind =>
      if at + count <= |bs| then Success((String(bs[at..at + count]), at + count))
      else Failure(InsufficientData)
    case BinaryKind =>
      if at + count <= |bs| then Success((Binary(bs[at..at + count]), at + count))
      else Failure(InsufficientData)
    case ExtendedKind =>
      if at + 1 + count <= |bs| then
        assert Pow256(1) == 0x100;
        var extType := ToSigned(bs[at] as nat, 1) as int8;
        Success((Extended(extType, bs[at + 1..at + 1 + count]), at + 1 + count))
      else Failure(InsufficientData)
    case ArrayKind =>
      (match DecodeItems(bs[at..], count)
       case Failure(e) => Failure(e)
       case Success(body) => Success((Array(body.0), at + body.1)))
    case MapKind =>
      match DecodeItems(bs[at..], 2 * count)
      case Failure(e) => Failure(e)
      case Success(body) => Success((Map(PairUp(body.0)), at + body.1))
  }

  /** Consecutive values paired up: the first with the second, the third with
      the fourth, and so on. */
  function PairUp(items: seq<Value>): (r: seq<(Value, Value)>)
    requires |items| % 2 == 0
    ensures 2 * |r| == |items|
  {
    if items == [] then [] else [(items[0], items[1])] + PairUp(items[2..])
  }

  /** Reads `count` values back to back from the front of `bs`. */
  function DecodeItems(bs: seq<byte>, count: nat): (r: Result<(seq<Value>, nat)>)
    ensures r.Success? ==> |r.value.0| == count && r.value.1 <= |bs|
    decreases |bs|, 4, count
  {
    if count == 0 then Success(([], 0))
    else
      match Decode(bs)
      case Failure(e) => Failure(e)
      case Success(first) =>
        match DecodeItems(bs[first.1..], count - 1)
        case Failure(e) => Failure(e)
        case Success(others) => Success(([first.0] + others.0, first.1 + others.1))
  }
}
