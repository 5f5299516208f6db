/**
 * The encoder's output read back by the reference reader: every packable
 * value decodes to a value `Equiv` to it (`.Int(n)` and `.UInt(n)` being
 * the same value for n >= 0, map entries compared in order), consuming
 * exactly the bytes packed, whatever follows them. Consequences: two values
 * pack to the same bytes exactly when they are `Equiv`, and no encoding is a
 * proper prefix of another.
 */
module RoundTrip {
  import opened Bytes
  import opened Values
  import opened Encoder
  import opened PackProperties
  import opened ReferenceDecoder

  /** A marked field reads back as its value, whatever follows it. */
  lemma ReadMarkedField(h: seq<byte>, marker: byte, width: nat, value: int, rest: seq<byte>)
    requires MarkedField(h, marker, width, value)
    ensures (h + rest)[0] == marker
    ensures ReadUInt(h + rest, 1, width) == Success(value)
  {
    assert (h + rest)[1..1 + width] == h[1..];
  }

  /** A one-byte field reads as the byte. */
  lemma MarkedByte(marker: byte, b: byte)
    ensures MarkedField([marker, b], marker, 1, b as int)
  {
    var s := [marker, b][1..];
    assert s == [b] && s[..0] == [];
  }

  /** Two numbers in the same signed window of width p that agree modulo p
      are equal. */
  lemma SignedWindow(r: int, v: int, p: int)
    requires p > 0
    requires -p <= 2 * r < p && -p <= 2 * v < p
    requires r % p == v % p
    ensures r == v
  {
    var a, b, c := r / p, v / p, r % p;
    assert r == p * a + c && v == p * b + c;
    assert r - v == p * (a - b);
    MultipleBelowDivisor(p, a - b);
  }

  /** A two's-complement field holding the bit pattern of a value in its
      range reads back as the value. */
  lemma ToSignedOfPattern(v: int, width: nat)
    requires -(Pow256(width) as int) <= 2 * v < Pow256(width)
    ensures v % Pow256(width) < Pow256(width)
    ensures ToSigned(v % Pow256(width), width) == v
  {
    var p := Pow256(width);
    var r := ToSigned(v % p, width);
    assert r % p == v % p;
    SignedWindow(r, v, p);
  }

  /** The unsigned ladder reads back as the `UInt` it packed. */
  lemma DecodePackPositive(v: uint64, rest: seq<byte>)
    ensures Decode(PackPositiveInteger(v) + rest) == Success((UInt(v), |PackPositiveInteger(v)|))
  {
    Pow256Values();
    PackPositiveIntegerLadder(v);
    var p := PackPositiveInteger(v);
    if v <= 0x7f {
    } else if v <= 0xff {
      MarkedByte(0xcc, v as int as byte);
      FieldDecodes(p, UnsignedField, 1, v as int, rest);
    } else if v <= 0xffff {
      FieldDecodes(p, UnsignedField, 2, v as int, rest);
    } else if v <= 0xffff_ffff {
      FieldDecodes(p, UnsignedField, 4, v as int, rest);
    } else {
      FieldDecodes(p, UnsignedField, 8, v as int, rest);
    }
  }

  /** A signed field holding the two's-complement bit pattern of a value
      in its range reads back as that value, whatever follows it. */
  lemma SignedFieldDecodes(h: seq<byte>, width: nat, v: int64, rest: seq<byte>)
    requires |h| > 0 && FormatOf(h[0]) == Fixed(SignedField, width)
    requires -(Pow256(width) as int) <= 2 * (v as int) < Pow256(width)
    requires MarkedField(h, h[0], width, v as int % Pow256(width))
    ensures Decode(h + rest) == Success((Int(v), |h|))
  {
    FieldDecodes(h, SignedField, width, v as int % Pow256(width), rest);
    ToSignedOfPattern(v as int, width);
  }

  /** The negative ladder reads back as the `Int` it packed. */
  lemma DecodePackNegative(v: int64, rest: seq<byte>)
    requires v < 0
    ensures Decode(PackNegativeInteger(v) + rest) == Success((Int(v), |PackNegativeInteger(v)|))
  {
    if -0x20 <= v {
      NegativeFixintIsLowByte(v);
    } else {
      DecodePackSigned(v, rest);
    }
  }

  /** Below the negative fixints, the ladder's signed fields read back as
      the value. */
  lemma DecodePackSigned(v: int64, rest: seq<byte>)
    requires v < -0x20
    ensures Decode(PackNegativeInteger(v) + rest) == Success((Int(v), |PackNegativeInteger(v)|))
  {
    Pow256Values();
    PackNegativeIntegerLadder(v);
    var p := PackNegativeInteger(v);
    if -0x7f <= v {
      MarkedByte(0xd0, (v as int % 0x100) as byte);
      SignedFieldDecodes(p, 1, v, rest);
    } else if -0x7fff <= v {
      SignedFieldDecodes(p, 2, v, rest);
    } else if -0x7fff_ffff <= v {
      SignedFieldDecodes(p, 4, v, rest);
    } else {
      SignedFieldDecodes(p, 8, v, rest);
    }
  }

  /** A first byte that carries the length itself: the reader goes on to
      the body right after it. */
  lemma ImmediateDecodes(h: seq<byte>, kind: Kind, n: nat, tail: seq<byte>)
    requires |h| == 1 && FormatOf(h[0]) == Immediate(kind, n)
    ensures Decode(h + tail) == DecodeBody(h + tail, kind, 1, n)
  {
    assert (h + tail)[0] == h[0];
  }

  /** A first byte announcing a `width`-byte field, followed by that field:
      the reader goes on with the number the field holds. */
  lemma FieldDecodes(h: seq<byte>, field: Field, width: nat, value: int, rest: seq<byte>)
    requires |h| > 0 && MarkedField(h, h[0], width, value)
    requires FormatOf(h[0]) == Fixed(field, width)
    ensures value >= 0 && 1 + width <= |h + rest|
    ensures Decode(h + rest) == DecodeField(h + rest, field, width, value)
  {
    ReadMarkedField(h, h[0], width, value, rest);
  }

  /** A first byte announcing a `width`-byte length field, followed by that
      field: the reader goes on to the body after the field with the length
      the field holds. */
  lemma CountedDecodes(h: seq<byte>, kind: Kind, width: nat, n: nat, tail: seq<byte>)
    requires |h| > 0 && MarkedField(h, h[0], width, n)
    requires FormatOf(h[0]) == Fixed(LengthField(kind), width)
    ensures Decode(h + tail) == DecodeBody(h + tail, kind, 1 + width, n)
  {
    FieldDecodes(h, LengthField(kind), width, n, tail);
  }

  /** Every string header reads back as the length it carries. */
  lemma StringHeaderDecodes(n: nat, tail: seq<byte>)
    requires n <= MaxCount
    ensures Decode(StringHeader(n) + tail)
         == DecodeBody(StringHeader(n) + tail, StringKind, |StringHeader(n)|, n)
  {
    Pow256Values();
    var h := StringHeader(n);
    if n <= 0x19 {
      BitOrA0(n as byte);
      ImmediateDecodes(h, StringKind, n, tail);
    } else if n <= 0xff {
      MarkedByte(0xd9, n as byte);
      CountedDecodes(h, StringKind, 1, n, tail);
    } else if n <= 0xffff {
      MarkedPackInteger(0xda, n as uint64, 2);
      CountedDecodes(h, StringKind, 2, n, tail);
    } else {
      MarkedPackInteger(0xdb, n as uint64, 4);
      CountedDecodes(h, StringKind, 4, n, tail);
    }
  }

  /** Every binary header reads back as the length it carries. */
  lemma BinaryHeaderDecodes(n: nat, tail: seq<byte>)
    requires n <= MaxCount
    ensures Decode(BinaryHeader(n) + tail)
         == DecodeBody(BinaryHeader(n) + tail, BinaryKind, |BinaryHeader(n)|, n)
  {
    Pow256Values();
    var h := BinaryHeader(n);
    if n <= 0xff {
      MarkedByte(0xc4, n as byte);
      CountedDecodes(h, BinaryKind, 1, n, tail);
    } else if n <= 0xffff {
      MarkedPackInteger(0xc5, n as uint64, 2);
      CountedDecodes(h, BinaryKind, 2, n, tail);
    } else {
      MarkedPackInteger(0xc6, n as uint64, 4);
      CountedDecodes(h, BinaryKind, 4, n, tail);
    }
  }

  /** Every extended header reads back as the payload length it carries,
      with the type byte right after the length information. */
  lemma ExtendedHeaderDecodes(t: int8, n: nat, tail: seq<byte>)
    requires n <= MaxCount
    ensures Decode(ExtendedHeader(t, n) + tail)
         == DecodeBody(ExtendedHeader(t, n) + tail, ExtendedKind, |ExtendedHeader(t, n)| - 1, n)
  {
    var h := ExtendedHeader(t, n);
    if n in {1, 2, 4, 8, 16} {
      ImmediateDecodes(h[..1], ExtendedKind, n, h[1..] + tail);
      Regroup(h, 1, ExtendedKind, 1, n, tail);
    } else {
      ExtendedCountedDecodes(t, n, tail);
    }
  }

  /** The extended headers that carry the payload length in a field after
      the marker. */
  lemma ExtendedCountedDecodes(t: int8, n: nat, tail: seq<byte>)
    requires n <= MaxCount && n !in {1, 2, 4, 8, 16}
    ensures Decode(ExtendedHeader(t, n) + tail)
         == DecodeBody(ExtendedHeader(t, n) + tail, ExtendedKind, |ExtendedHeader(t, n)| - 1, n)
  {
    Pow256Values();
    var h := ExtendedHeader(t, n);
    if n <= 0xff {
      MarkedByte(0xc7, n as byte);
      assert h[..2] == [0xc7, n as byte];
      ExtendedLengthDecodes(h, 1, n, tail);
    } else if n <= 0xffff {
      MarkedPackInteger(0xc8, n as uint64, 2);
      assert h[..3] == [0xc8] + PackInteger(n as uint64, 2);
      ExtendedLengthDecodes(h, 2, n, tail);
    } else {
      MarkedPackInteger(0xc9, n as uint64, 4);
      assert h[..5] == [0xc9] + PackInteger(n as uint64, 4);
      ExtendedLengthDecodes(h, 4, n, tail);
    }
  }

  /** An extended header whose marker announces a `width`-byte length field
      holding `n`, then the type byte. */
  lemma ExtendedLengthDecodes(h: seq<byte>, width: nat, n: nat, tail: seq<byte>)
    requires |h| == 2 + width && MarkedField(h[..1 + width], h[0], width, n)
    requires FormatOf(h[0]) == Fixed(LengthField(ExtendedKind), width)
    ensures Decode(h + tail) == DecodeBody(h + tail, ExtendedKind, |h| - 1, n)
  {
    var k := 1 + width;
    assert h[..k][0] == h[0];
    CountedDecodes(h[..k], ExtendedKind, width, n, h[k..] + tail);
    Regroup(h, k, ExtendedKind, k, n, tail);
  }


  /** What the reader makes of a header split in two applies to the whole
      header. */
  lemma Regroup(h: seq<byte>, k: nat, kind: Kind, at: nat, n: nat, tail: seq<byte>)
    requires 0 < at <= k <= |h|
    requires Decode(h[..k] + (h[k..] + tail)) == DecodeBody(h[..k] + (h[k..] + tail), kind, at, n)
    ensures Decode(h + tail) == DecodeBody(h + tail, kind, at, n)
  {
    assert h[..k] + (h[k..] + tail) == h + tail;
  }


  /** Every array header reads back as the element count it carries. */
  lemma ArrayHeaderDecodes(n: nat, tail: seq<byte>)
    requires n <= MaxCount
    ensures Decode(ArrayHeader(n) + tail)
         == DecodeBody(ArrayHeader(n) + tail, ArrayKind, |ArrayHeader(n)|, n)
  {
    Pow256Values();
    var h := ArrayHeader(n);
    if n <= 0xe {
      BitOrNibble(0x90, n as byte);
      ImmediateDecodes(h, ArrayKind, n, tail);
    } else if n <= 0xffff {
      MarkedPackInteger(0xdc, n as uint64, 2);
      CountedDecodes(h, ArrayKind, 2, n, tail);
    } else {
      MarkedPackInteger(0xdd, n as uint64, 4);
      CountedDecodes(h, ArrayKind, 4, n, tail);
    }
  }

  /** Every map header reads back as the entry count it carries. */
  lemma MapHeaderDecodes(n: nat, tail: seq<byte>)
    requires n < MaxCount
    ensures Decode(MapHeader(n) + tail)
         == DecodeBody(MapHeader(n) + tail, MapKind, |MapHeader(n)|, n)
  {
    Pow256Values();
    var h := MapHeader(n);
    if n <= 0xe {
      BitOrNibble(0x80, n as byte);
      ImmediateDecodes(h, MapKind, n, tail);
    } else if n <= 0xffff {
      MarkedPackInteger(0xde, n as uint64, 2);
      CountedDecodes(h, MapKind, 2, n, tail);
    } else {
      MarkedPackInteger(0xdf, n as uint64, 4);
      CountedDecodes(h, MapKind, 4, n, tail);
    }
  }

  /** A packed string reads back as itself. */
  lemma DecodePackString(s: seq<byte>, rest: seq<byte>)
    requires |s| <= MaxCount
    ensures Decode(Pack(String(s)) + rest) == Success((String(s), |Pack(String(s))|))
  {
    var h := StringHeader(|s|);
    assert Pack(String(s)) + rest == h + (s + rest);
    StringHeaderDecodes(|s|, s + rest);
    assert (h + (s + rest))[|h|..|h| + |s|] == s;
  }

  /** A packed binary blob reads back as itself. */
  lemma DecodePackBinary(d: seq<byte>, rest: seq<byte>)
    requires |d| <= MaxCount
    ensures Decode(Pack(Binary(d)) + rest) == Success((Binary(d), |Pack(Binary(d))|))
  {
    var h := BinaryHeader(|d|);
    assert Pack(Binary(d)) + rest == h + (d + rest);
    BinaryHeaderDecodes(|d|, d + rest);
    assert (h + (d + rest))[|h|..|h| + |d|] == d;
  }

  /** A packed extended value reads back with its type and payload. */
  lemma DecodePackExtended(t: int8, d: seq<byte>, rest: seq<byte>)
    requires |d| <= MaxCount
    ensures Decode(Pack(Extended(t, d)) + rest)
         == Success((Extended(t, d), |Pack(Extended(t, d))|))
  {
    Pow256Values();
    var h := ExtendedHeader(t, |d|);
    var bs := h + (d + rest);
    assert Pack(Extended(t, d)) + rest == bs;
    ExtendedHeaderDecodes(t, |d|, d + rest);
    assert bs[|h|..|h| + |d|] == d;
    PackExtendedLayout(t, d);
    assert bs[|h| - 1] == Truncate(t as int);
    ToSignedOfPattern(t as int, 1);
  }

  /** Every scalar case (neither array nor map) reads back as its
      normalized self. */
  lemma DecodePackScalar(v: Value, rest: seq<byte>)
    requires Packable(v) && !v.Array? && !v.Map?
    ensures Decode(Pack(v) + rest) == Success((Normalize(v), |Pack(v)|))
  {
    Pow256Values();
    match v
    case Nil =>
    case Bool(b) =>
    case Int(n) =>
      if n >= 0 {
        DecodePackPositive(n as int as uint64, rest);
      } else {
        DecodePackNegative(n, rest);
      }
    case UInt(n) => DecodePackPositive(n, rest);
    case Float(f) =>
      PackFixedShapes(false, 0, f, 0);
      FieldDecodes(Pack(v), Float32Field, 4, f as int, rest);
    case Double(d) =>
      PackFixedShapes(false, 0, 0, d);
      FieldDecodes(Pack(v), Float64Field, 8, d as int, rest);
    case String(s) => DecodePackString(s, rest);
    case Binary(d) => DecodePackBinary(d, rest);
    case Extended(t, d) => DecodePackExtended(t, d, rest);
  }

  /** An array body that reads back as a list of values reads back as the
      array of those values. */
  lemma ArrayFromBody(bs: seq<byte>, at: nat, count: nat, items: seq<Value>, used: nat)
    requires 0 < at <= |bs|
    requires DecodeItems(bs[at..], count) == Success((items, used))
    ensures DecodeBody(bs, ArrayKind, at, count) == Success((Array(items), at + used))
  {
  }

  /** A map body that reads back as a list of values reads back as those
      values paired up. */
  lemma MapFromBody(bs: seq<byte>, at: nat, count: nat, items: seq<Value>, used: nat)
    requires 0 < at <= |bs|
    requires DecodeItems(bs[at..], 2 * count) == Success((items, used))
    ensures |items| % 2 == 0
    ensures DecodeBody(bs, MapKind, at, count) == Success((Map(PairUp(items)), at + used))
  {
  }

  /** After a header of `at` bytes, `n` values read back as an array of
      those values. */
  lemma ArrayBodyReadsBack(h: seq<byte>, tail: seq<byte>, n: nat, items: seq<Value>, used: nat)
    requires 0 < |h|
    requires DecodeItems(tail, n) == Success((items, used))
    ensures DecodeBody(h + tail, ArrayKind, |h|, n) == Success((Array(items), |h| + used))
  {
    DropPrefix(h, tail);
    ArrayFromBody(h + tail, |h|, n, items, used);
  }

  /** The flat list of a map's entries, read as a map body, gives back the
      entries. */
  lemma MapFromEntries(bs: seq<byte>, at: nat, entries: seq<(Value, Value)>, used: nat)
    requires 0 < at <= |bs|
    requires DecodeItems(bs[at..], 2 * |entries|) == Success((FlattenPairs(entries), used))
    ensures DecodeBody(bs, MapKind, at, |entries|) == Success((Map(entries), at + used))
  {
    MapFromBody(bs, at, |entries|, FlattenPairs(entries), used);
    PairUpFlatten(entries);
  }

  /** Dropping a prefix's worth of bytes leaves what followed the prefix.
      A sequence identity only, kept as a lemma so that the callers' proof
      obligations stay small. */
  lemma DropPrefix(h: seq<byte>, tail: seq<byte>)
    ensures (h + tail)[|h|..] == tail
  {
  }

  /** After a header of `at` bytes, the flat key, value, key, value... list
      of `n` entries reads back as the map of those entries. */
  lemma MapBodyReadsBack(h: seq<byte>, tail: seq<byte>, entries: seq<(Value, Value)>, used: nat)
    requires 0 < |h|
    requires DecodeItems(tail, 2 * |entries|) == Success((FlattenPairs(entries), used))
    ensures DecodeBody(h + tail, MapKind, |h|, |entries|) == Success((Map(entries), |h| + used))
  {
    DropPrefix(h, tail);
    MapFromEntries(h + tail, |h|, entries, used);
  }



  /** An array header for `n` elements followed by `n` values reads back as
      the array of those values. */
  lemma ArrayReadsBack(n: nat, body: seq<byte>, rest: seq<byte>, items: seq<Value>)
    requires n <= MaxCount
    requires DecodeItems(body + rest, n) == Success((items, |body|))
    ensures Decode(ArrayHeader(n) + (body + rest))
         == Success((Array(items), |ArrayHeader(n)| + |body|))
  {
    ArrayHeaderDecodes(n, body + rest);
    ArrayBodyReadsBack(ArrayHeader(n), body + rest, n, items, |body|);
  }

  /** A map header for `n` entries followed by the flat key, value, key,
      value... list of `n` entries reads back as the map of those entries. */
  lemma MapReadsBack(body: seq<byte>, rest: seq<byte>, entries: seq<(Value, Value)>)
    requires |entries| < MaxCount
    requires DecodeItems(body + rest, 2 * |entries|) == Success((FlattenPairs(entries), |body|))
    ensures Decode(MapHeader(|entries|) + (body + rest))
         == Success((Map(entries), |MapHeader(|entries|)| + |body|))
  {
    MapHeaderDecodes(|entries|, body + rest);
    MapBodyReadsBack(MapHeader(|entries|), body + rest, entries, |body|);
  }

  /** Equal buffers read back alike. A substitution only: it moves a
      read-back fact to a syntactically different buffer and keeps
      `Decode`'s definition out of the callers' proof obligations. */
  lemma Transport(x: seq<byte>, y: seq<byte>, v: Value, w: Value, length: nat, otherLength: nat)
    requires x == y && v == w && length == otherLength
    requires Decode(y) == Success((w, otherLength))
    ensures Decode(x) == Success((v, length))
  {
  }

  /** An array reads back once its elements do. */
  lemma DecodePackArray(items: seq<Value>, rest: seq<byte>)
    requires Packable(Array(items))
    requires DecodeItems(PackEach(items) + rest, |items|)
          == Success((NormalizeEach(items), |PackEach(items)|))
    ensures Decode(Pack(Array(items)) + rest)
         == Success((Normalize(Array(items)), |Pack(Array(items))|))
  {
    PackArraySplit(items, rest);
    ArrayPackedReadsBack(Pack(Array(items)) + rest, PackEach(items), rest, NormalizeEach(items),
                         Normalize(Array(items)), |Pack(Array(items))|);
  }

  /** A buffer that is an array header, `n` values and more bytes reads back
      as the array of those values. */
  lemma ArrayPackedReadsBack(bs: seq<byte>, body: seq<byte>, rest: seq<byte>,
                             items: seq<Value>, v: Value, length: nat)
    requires |items| <= MaxCount && v == Array(items)
    requires bs == ArrayHeader(|items|) + (body + rest)
    requires length == |ArrayHeader(|items|)| + |body|
    requires DecodeItems(body + rest, |items|) == Success((items, |body|))
    ensures Decode(bs) == Success((v, length))
  {
    ArrayReadsBack(|items|, body, rest, items);
    Transport(bs, ArrayHeader(|items|) + (body + rest), v, Array(items),
              length, |ArrayHeader(|items|)| + |body|);
  }

  /** A map reads back once the flat key, value, key, value... list of its
      entries does. */
  lemma DecodePackMap(pairs: seq<(Value, Value)>, rest: seq<byte>)
    requires Packable(Map(pairs))
    requires DecodeItems(PackPairs(pairs) + rest, 2 * |pairs|)
          == Success((FlattenPairs(NormalizePairs(pairs)), |PackPairs(pairs)|))
    ensures Decode(Pack(Map(pairs)) + rest)
         == Success((Normalize(Map(pairs)), |Pack(Map(pairs))|))
  {
    PackMapSplit(pairs, rest);
    MapPackedReadsBack(Pack(Map(pairs)) + rest, PackPairs(pairs), rest, NormalizePairs(pairs),
                       Normalize(Map(pairs)), |Pack(Map(pairs))|);
  }

  /** A buffer that is a map header, the flat list of `n` entries and more
      bytes reads back as the map of those entries. */
  lemma MapPackedReadsBack(bs: seq<byte>, body: seq<byte>, rest: seq<byte>,
                           entries: seq<(Value, Value)>, v: Value, length: nat)
    requires |entries| < MaxCount && v == Map(entries)
    requires bs == MapHeader(|entries|) + (body + rest)
    requires length == |MapHeader(|entries|)| + |body|
    requires DecodeItems(body + rest, 2 * |entries|) == Success((FlattenPairs(entries), |body|))
    ensures Decode(bs) == Success((v, length))
  {
    MapReadsBack(body, rest, entries);
    Transport(bs, MapHeader(|entries|) + (body + rest), v, Map(entries),
              length, |MapHeader(|entries|)| + |body|);
  }

  /** Concatenation is associative. A sequence identity only, kept as a
      lemma so that the split lemmas below stay small. */
  lemma Associative(a: seq<byte>, b: seq<byte>, c: seq<byte>)
    ensures (a + b) + c == a + (b + c)
  {
  }

  /** A packed array followed by more bytes is its header, then its
      elements, then those bytes. */
  lemma PackArraySplit(items: seq<Value>, rest: seq<byte>)
    requires Packable(Array(items))
    ensures Pack(Array(items)) + rest == ArrayHeader(|items|) + (PackEach(items) + rest)
    ensures |Pack(Array(items))| == |ArrayHeader(|items|)| + |PackEach(items)|
  {
    PackArrayLayout(items);
    Associative(ArrayHeader(|items|), PackEach(items), rest);
  }

  /** A packed map followed by more bytes is its header, then its entries,
      then those bytes. */
  lemma PackMapSplit(pairs: seq<(Value, Value)>, rest: seq<byte>)
    requires Packable(Map(pairs))
    ensures Pack(Map(pairs)) + rest == MapHeader(|pairs|) + (PackPairs(pairs) + rest)
    ensures |Pack(Map(pairs))| == |MapHeader(|pairs|)| + |PackPairs(pairs)|
  {
    PackMapLayout(pairs);
    Associative(MapHeader(|pairs|), PackPairs(pairs), rest);
  }

  /** Pairing up the flat list of a map's entries gives back the entries:
      the reader's pairing undoes the encoder's flattening. */
  lemma {:induction false} PairUpFlatten(pairs: seq<(Value, Value)>)
    ensures PairUp(FlattenPairs(pairs)) == pairs
    decreases pairs
  {
    if pairs != [] {
      var flat := FlattenPairs(pairs);
      assert flat[2..] == FlattenPairs(pairs[1..]);
      PairUpFlatten(pairs[1..]);
    }
  }

  /** The number of values a value is made of, counting itself: the
      measure the round-trip induction goes down by. */
  function Size(v: Value): (r: nat)
    ensures r >= 1
    decreases v
  {
    match v
    case Array(items) => 1 + SizeEach(items)
    case Map(pairs) => 1 + SizePairs(pairs)
    case _ => 1
  }

  function SizeEach(items: seq<Value>): (r: nat)
    ensures items != [] ==> r > SizeEach(items[1..]) && r >= Size(items[0])
    decreases items
  {
    if items == [] then 0 else Size(items[0]) + SizeEach(items[1..])
  }

  function SizePairs(pairs: seq<(Value, Value)>): nat
    decreases pairs
  {
    if pairs == [] then 0
    else
      assert pairs[0] in pairs;
      assert pairs[0].0 < pairs[0] && pairs[0].1 < pairs[0];
      Size(pairs[0].0) + Size(pairs[0].1) + SizePairs(pairs[1..])
  }

  /** The flat list of a map's entries has the size of the entries. */
  lemma {:induction false} SizeFlatten(pairs: seq<(Value, Value)>)
    ensures SizeEach(FlattenPairs(pairs)) == SizePairs(pairs)
    decreases pairs
  {
    if pairs != [] {
      var flat := FlattenPairs(pairs);
      assert flat[1..][1..] == FlattenPairs(pairs[1..]);
      SizeFlatten(pairs[1..]);
    }
  }

  /** Normalizing the flat list of a map's entries is flattening the
      normalized entries. */
  lemma {:induction false} NormalizeEachFlatten(pairs: seq<(Value, Value)>)
    ensures NormalizeEach(FlattenPairs(pairs)) == FlattenPairs(NormalizePairs(pairs))
    decreases pairs
  {
    if pairs != [] {
      var flat, n := FlattenPairs(pairs), NormalizePairs(pairs);
      assert flat[1..][1..] == FlattenPairs(pairs[1..]);
      assert n[0] == (Normalize(pairs[0].0), Normalize(pairs[0].1)) && n[1..] == NormalizePairs(pairs[1..]);
      NormalizeEachFlatten(pairs[1..]);
    }
  }

  /** Reading a packed value from the front of any buffer gives back the
      value, normalized, and consumes exactly its encoding. */
  lemma {:induction false} DecodePack(v: Value, rest: seq<byte>)
    requires Packable(v)
    ensures Decode(Pack(v) + rest) == Success((Normalize(v), |Pack(v)|))
    decreases Size(v), 0
  {
    match v
    case Array(items) =>
      DecodePackEach(items, rest);
      DecodePackArray(items, rest);
    case Map(pairs) =>
      var flat := FlattenPairs(pairs);
      PackPairsFlatten(pairs);
      SizeFlatten(pairs);
      DecodePackEach(flat, rest);
      NormalizeEachFlatten(pairs);
      DecodePackMap(pairs, rest);
    case _ => DecodePackScalar(v, rest);
  }

  /** Packed values written back to back read back one after another, each
      normalized, consuming exactly their encodings. */
  lemma {:induction false} DecodePackEach(items: seq<Value>, rest: seq<byte>)
    requires forall i | 0 <= i < |items| :: Packable(items[i])
    ensures DecodeItems(PackEach(items) + rest, |items|)
         == Success((NormalizeEach(items), |PackEach(items)|))
    decreases SizeEach(items), 2
  {
    if items == [] {
      assert NormalizeEach(items) == [] && PackEach(items) + rest == rest;
      assert DecodeItems(rest, 0) == Success(([], 0));
    } else {
      DecodePackEachFirst(items, rest);
    }
  }

  lemma {:induction false} DecodePackEachFirst(items: seq<Value>, rest: seq<byte>)
    requires items != []
    requires forall i | 0 <= i < |items| :: Packable(items[i])
    ensures DecodeItems(PackEach(items) + rest, |items|)
         == Success((NormalizeEach(items), |PackEach(items)|))
    decreases SizeEach(items), 1
  {
    var p, q := Pack(items[0]), PackEach(items[1..]);
    DecodePack(items[0], q + rest);
    DecodePackEach(items[1..], rest);
    DecodeItemsJoin(p, q, rest, |items|, Normalize(items[0]), NormalizeEach(items[1..]), PackEach(items));
  }

  /** Reading back one value's bytes `p` followed by `count` - 1 further
      values' bytes `q`, as one buffer `whole`. */
  lemma DecodeItemsJoin(p: seq<byte>, q: seq<byte>, rest: seq<byte>, count: nat, first: Value,
                        others: seq<Value>, whole: seq<byte>)
    requires count > 0 && whole == p + q
    requires Decode(p + (q + rest)) == Success((first, |p|))
    requires DecodeItems(q + rest, count - 1) == Success((others, |q|))
    ensures DecodeItems(whole + rest, count) == Success(([first] + others, |whole|))
  {
    Associative(p, q, rest);
    DecodeItemsCons(p, q + rest, count, first, others, |q|);
  }

  /** One step of reading values back to back: the first value, then the
      others from the bytes after it. */
  lemma DecodeItemsStep(bs: seq<byte>, count: nat, first: Value, firstLength: nat,
                        others: seq<Value>, used: nat)
    requires count > 0 && firstLength <= |bs|
    requires Decode(bs) == Success((first, firstLength))
    requires DecodeItems(bs[firstLength..], count - 1) == Success((others, used))
    ensures DecodeItems(bs, count) == Success(([first] + others, firstLength + used))
  {
  }

  /** The same step, for a buffer that starts with the bytes of the first
      value. */
  lemma DecodeItemsCons(p: seq<byte>, tail: seq<byte>, count: nat, first: Value,
                        others: seq<Value>, used: nat)
    requires count > 0
    requires Decode(p + tail) == Success((first, |p|))
    requires DecodeItems(tail, count - 1) == Success((others, used))
    ensures DecodeItems(p + tail, count) == Success(([first] + others, |p| + used))
  {
    assert (p + tail)[|p|..] == tail;
    DecodeItemsStep(p + tail, count, first, |p|, others, used);
  }

  /** The round trip: a packed value reads back as an equivalent value and
      the reader consumes every byte. */
  lemma RoundTripEquiv(v: Value)
    requires Packable(v)
    ensures Decode(Pack(v)).Success?
    ensures Decode(Pack(v)).value.1 == |Pack(v)|
    ensures Equiv(Decode(Pack(v)).value.0, v)
  {
    DecodePack(v, []);
    assert Pack(v) + [] == Pack(v);
    NormalizeIdempotent(v);
  }

  /** Two packable values have the same encoding exactly when they are
      equivalent. */
  lemma PackSameIffEquiv(a: Value, b: Value)
    requires Packable(a) && Packable(b)
    ensures Pack(a) == Pack(b) <==> Equiv(a, b)
  {
    if Pack(a) == Pack(b) {
      DecodePack(a, []);
      DecodePack(b, []);
    }
    if Equiv(a, b) {
      PackRespectsEquiv(a, b);
    }
  }

  /** Encodings are self-delimiting: if one encoding followed by some bytes
      equals another followed by some bytes, the two encodings are the same
      and so are the bytes that follow. In particular no encoding is a
      proper prefix of another. */
  lemma PackSelfDelimiting(a: Value, b: Value, restA: seq<byte>, restB: seq<byte>)
    requires Packable(a) && Packable(b)
    requires Pack(a) + restA == Pack(b) + restB
    ensures Pack(a) == Pack(b) && restA == restB
    ensures Equiv(a, b)
  {
    DecodePack(a, restA);
    DecodePack(b, restB);
    var n := |Pack(a)|;
    assert (Pack(a) + restA)[..n] == Pack(a) && (Pack(b) + restB)[..n] == Pack(b);
    assert (Pack(a) + restA)[n..] == restA && (Pack(b) + restB)[n..] == restB;
  }
}
