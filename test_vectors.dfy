/**
 * The encodings the library's unit tests expect, derived from the model.
 * Cases with a payload are stated for any payload of the length the
 * library's test uses.
 */
module TestVectors {
  import opened Bytes
  import opened Values
  import opened Encoder
  import opened PackProperties

  /** Reading a string one more byte long: shift left by eight bits and
      add the new byte. */
  lemma ReadsOneMore(init: seq<byte>, b: byte)
    ensures FromBigEndian(init + [b]) == FromBigEndian(init) * 256 + b as int
  {
    var s := init + [b];
    assert s[..|s| - 1] == init && s[|s| - 1] == b;
  }

  /** Four bytes, most significant first. */
  lemma ReadsFour(a: byte, b: byte, c: byte, d: byte)
    ensures FromBigEndian([a, b, c, d]) == ((a as int * 256 + b as int) * 256 + c as int) * 256 + d as int
  {
    FromBigEndianOfByte([a]);
    ReadsOneMore([a], b);
    assert [a] + [b] == [a, b];
    ReadsOneMore([a, b], c);
    assert [a, b] + [c] == [a, b, c];
    ReadsOneMore([a, b, c], d);
    assert [a, b, c] + [d] == [a, b, c, d];
  }

  /** Positive fixints, signed and unsigned. */
  lemma PositiveFixintVectors()
    ensures Pack(Int(1)) == [0x01]
    ensures Pack(UInt(42)) == [0x2a]
  {
  }

  lemma Unsigned8Vector()
    ensures Pack(UInt(0xff)) == [0xcc, 0xff]
  {
  }

  lemma Unsigned16Vector()
    ensures Pack(UInt(0xffff)) == [0xcd, 0xff, 0xff]
  {
    PackIntegerOfBigEndian([0xff, 0xff]);
  }

  lemma Unsigned32Vector()
    ensures Pack(UInt(0xffff_ffff)) == [0xce, 0xff, 0xff, 0xff, 0xff]
  {
    ReadsFour(0xff, 0xff, 0xff, 0xff);
    PackIntegerOfBigEndian([0xff, 0xff, 0xff, 0xff]);
  }

  lemma Unsigned64Vector()
    ensures Pack(UInt(0xffff_ffff_ffff_ffff)) == [0xcf, 0xff, 0xff, 0xff, 0xff, 0xff, 0xff, 0xff, 0xff]
  {
    var high: seq<byte> := [0xff, 0xff, 0xff, 0xff];
    ReadsFour(0xff, 0xff, 0xff, 0xff);
    ReadsOneMore(high, 0xff);
    assert high + [0xff] + [0xff] == high + [0xff, 0xff];
    ReadsOneMore(high + [0xff], 0xff);
    assert high + [0xff, 0xff] + [0xff] == high + [0xff, 0xff, 0xff];
    ReadsOneMore(high + [0xff, 0xff], 0xff);
    assert high + [0xff, 0xff, 0xff] + [0xff] == high + [0xff, 0xff, 0xff, 0xff];
    ReadsOneMore(high + [0xff, 0xff, 0xff], 0xff);
    assert high + [0xff, 0xff, 0xff, 0xff] == [0xff, 0xff, 0xff, 0xff, 0xff, 0xff, 0xff, 0xff];
    PackIntegerOfBigEndian([0xff, 0xff, 0xff, 0xff, 0xff, 0xff, 0xff, 0xff]);
  }

  lemma NegativeFixintVector()
    ensures Pack(Int(-1)) == [0xff]
  {
    NegativeFixintIsLowByte(-1);
  }

  /** -0x7f is the last value the code packs as int 8. */
  lemma Signed8Vector()
    ensures Pack(Int(-0x7f)) == [0xd0, 0x81]
  {
  }

  lemma Signed16Vector()
    ensures Pack(Int(-0x7fff)) == [0xd1, 0x80, 0x01]
  {
    var v: int64 := -0x7fff;
    assert v as int % 0x1_0000 == 0x8001;
    assert PackNegativeInteger(v) == [0xd1] + PackInteger(0x8001, 2);
    PackIntegerOfBigEndian([0x80, 0x01]);
  }

  lemma Signed32Vector()
    ensures Pack(Int(-0x1_0000)) == [0xd2, 0xff, 0xff, 0x00, 0x00]
  {
    var v: int64 := -0x1_0000;
    assert v as int % 0x1_0000_0000 == 0xffff_0000;
    assert PackNegativeInteger(v) == [0xd2] + PackInteger(0xffff_0000, 4);
    ReadsFour(0xff, 0xff, 0x00, 0x00);
    PackIntegerOfBigEndian([0xff, 0xff, 0x00, 0x00]);
  }

  lemma Signed64Vector()
    ensures Pack(Int(-0x1_0000_0000)) == [0xd3, 0xff, 0xff, 0xff, 0xff, 0x00, 0x00, 0x00, 0x00]
  {
    var v: int64 := -0x1_0000_0000;
    assert v as int % 0x1_0000_0000_0000_0000 == 0xffff_ffff_0000_0000;
    assert PackNegativeInteger(v) == [0xd3] + PackInteger(0xffff_ffff_0000_0000, 8);
    var high: seq<byte> := [0xff, 0xff, 0xff, 0xff];
    ReadsFour(0xff, 0xff, 0xff, 0xff);
    ReadsOneMore(high, 0x00);
    assert high + [0x00] + [0x00] == high + [0x00, 0x00];
    ReadsOneMore(high + [0x00], 0x00);
    assert high + [0x00, 0x00] + [0x00] == high + [0x00, 0x00, 0x00];
    ReadsOneMore(high + [0x00, 0x00], 0x00);
    assert high + [0x00, 0x00, 0x00] + [0x00] == high + [0x00, 0x00, 0x00, 0x00];
    ReadsOneMore(high + [0x00, 0x00, 0x00], 0x00);
    assert high + [0x00, 0x00, 0x00, 0x00] == [0xff, 0xff, 0xff, 0xff, 0x00, 0x00, 0x00, 0x00];
    PackIntegerOfBigEndian([0xff, 0xff, 0xff, 0xff, 0x00, 0x00, 0x00, 0x00]);
  }

  /** "Hello, world!" is 13 UTF-8 bytes, a fixstr; 32 bytes take str 8. */
  lemma StringVectors(hello: seq<byte>, s: seq<byte>)
    requires |hello| == 13 && |s| == 0x20
    ensures Pack(String(hello)) == [0xad] + hello
    ensures Pack(String(s)) == [0xd9, 0x20] + s
  {
    BitOrA0(13);
  }

  /** [0, 1, 2, 3, 4] as unsigned values: a fixarray of positive fixints. */
  lemma FixarrayVector()
    ensures Pack(Array([UInt(0), UInt(1), UInt(2), UInt(3), UInt(4)]))
         == [0x95, 0x00, 0x01, 0x02, 0x03, 0x04]
  {
    BitOrNibble(0x90, 5);
    var items := [UInt(0), UInt(1), UInt(2), UInt(3), UInt(4)];
    assert PackEach(items[4..]) == [0x04] by {
      assert items[4..][1..] == [];
    }
    assert items[3..][1..] == items[4..];
    assert items[2..][1..] == items[3..];
    assert items[1..][1..] == items[2..];
  }

  lemma Fixext1Vector(one: seq<byte>)
    requires |one| == 1
    ensures Pack(Extended(5, one)) == [0xd4, 0x05] + one
  {
  }

  /** ext 8 and ext 16, with the type byte after the length. */
  lemma ExtendedVectors(d7: seq<byte>, d256: seq<byte>)
    requires |d7| == 7 && |d256| == 0x100
    ensures Pack(Extended(5, d7)) == [0xc7, 0x07, 0x05] + d7
    ensures Pack(Extended(5, d256)) == [0xc8, 0x01, 0x00, 0x05] + d256
  {
    PackIntegerOfBigEndian([0x01, 0x00]);
  }

  /** bin 8, 16 and 32: the length after the marker, then the payload. */
  lemma BinaryVectors(d255: seq<byte>, d256: seq<byte>, d64k: seq<byte>)
    requires |d255| == 0xff && |d256| == 0x100 && |d64k| == 0x1_0000
    ensures Pack(Binary([0x00, 0x01, 0x02, 0x03, 0x04])) == [0xc4, 0x05, 0x00, 0x01, 0x02, 0x03, 0x04]
    ensures Pack(Binary(d255)) == [0xc4, 0xff] + d255
    ensures Pack(Binary(d256)) == [0xc5, 0x01, 0x00] + d256
    ensures Pack(Binary(d64k)) == [0xc6, 0x00, 0x01, 0x00, 0x00] + d64k
  {
    PackIntegerOfBigEndian([0x01, 0x00]);
    ReadsFour(0x00, 0x01, 0x00, 0x00);
    PackIntegerOfBigEndian([0x00, 0x01, 0x00, 0x00]);
  }

  /** A list of nils packs as one 0xc0 per element. */
  lemma {:induction false} PackEachNils(items: seq<Value>)
    requires forall i | 0 <= i < |items| :: items[i] == Nil
    ensures PackEach(items) == seq(|items|, _ => 0xc0)
    decreases |items|
  {
    if items != [] {
      PackEachNils(items[1..]);
      assert seq(|items|, _ => 0xc0 as byte) == [0xc0] + seq(|items| - 1, _ => 0xc0);
    }
  }

  /** Sixteen nils take array 16: one element past the fixarray limit the
      code uses would already do. */
  lemma Array16Vector()
    ensures Packable(Array(seq(16, _ => Nil)))
    ensures Pack(Array(seq(16, _ => Nil))) == [0xdc, 0x00, 0x10] + seq(16, _ => 0xc0)
  {
    PackEachNils(seq(16, _ => Nil));
    PackIntegerOfBigEndian([0x00, 0x10]);
  }

  /** The map `["c": "cookie"]`: a fixmap of one entry, key then value. */
  lemma FixmapVector()
    ensures Pack(Map([(String([0x63]), String([0x63, 0x6f, 0x6f, 0x6b, 0x69, 0x65]))]))
         == [0x81, 0xa1, 0x63, 0xa6, 0x63, 0x6f, 0x6f, 0x6b, 0x69, 0x65]
  {
    BitOrNibble(0x80, 1);
    BitOrA0(1);
    BitOrA0(6);
  }

  /** The key "compact". */
  const Compact: seq<byte> := [0x63, 0x6f, 0x6d, 0x70, 0x61, 0x63, 0x74]

  /** The key "schema". */
  const Schema: seq<byte> := [0x73, 0x63, 0x68, 0x65, 0x6d, 0x61]

  /** The map `["compact": true, "schema": 0]` iterated with "compact" first;
      the literal `0` is an `Int`. */
  lemma ExampleCompactFirstVector()
    ensures Packable(Map([(String(Compact), Bool(true)), (String(Schema), Int(0))]))
    ensures Pack(Map([(String(Compact), Bool(true)), (String(Schema), Int(0))]))
         == [0x82, 0xa7] + Compact + [0xc3, 0xa6] + Schema + [0x00]
  {
    ExampleEntries();
    TwoEntryMap(String(Compact), Bool(true), String(Schema), Int(0),
                [0xa7] + Compact, [0xc3], [0xa6] + Schema, [0x00]);
  }

  /** The same map iterated with "schema" first: the other encoding the
      library accepts for it, since the bytes follow the iteration order. */
  lemma ExampleSchemaFirstVector()
    ensures Packable(Map([(String(Schema), Int(0)), (String(Compact), Bool(true))]))
    ensures Pack(Map([(String(Schema), Int(0)), (String(Compact), Bool(true))]))
         == [0x82, 0xa6] + Schema + [0x00, 0xa7] + Compact + [0xc3]
  {
    ExampleEntries();
    TwoEntryMap(String(Schema), Int(0), String(Compact), Bool(true),
                [0xa6] + Schema, [0x00], [0xa7] + Compact, [0xc3]);
  }

  /** The encodings of the two entries' keys and values, and of the header. */
  lemma ExampleEntries()
    ensures Pack(String(Compact)) == [0xa7] + Compact
    ensures Pack(String(Schema)) == [0xa6] + Schema
    ensures Pack(Bool(true)) == [0xc3]
    ensures Pack(Int(0)) == [0x00]
    ensures MapHeader(2) == [0x82]
  {
    BitOrNibble(0x80, 2);
    BitOrA0(7);
    BitOrA0(6);
  }

  /** A map of two entries packs as its header, then the first key and
      value, then the second. */
  lemma {:induction false} TwoEntryMap(k1: Value, v1: Value, k2: Value, v2: Value,
                                      e1: seq<byte>, f1: seq<byte>, e2: seq<byte>, f2: seq<byte>)
    requires Packable(k1) && Packable(v1) && Packable(k2) && Packable(v2)
    requires Pack(k1) == e1 && Pack(v1) == f1 && Pack(k2) == e2 && Pack(v2) == f2
    ensures Packable(Map([(k1, v1), (k2, v2)]))
    ensures Pack(Map([(k1, v1), (k2, v2)])) == MapHeader(2) + (e1 + f1 + (e2 + f2))
  {
    TwoEntries(k1, v1, k2, v2);
  }

  /** Two entries pack as the first entry, then the second. */
  lemma {:induction false} TwoEntries(k1: Value, v1: Value, k2: Value, v2: Value)
    requires Packable(k1) && Packable(v1) && Packable(k2) && Packable(v2)
    ensures PackPairs([(k1, v1), (k2, v2)]) == Pack(k1) + Pack(v1) + (Pack(k2) + Pack(v2))
  {
    var pairs := [(k1, v1), (k2, v2)];
    assert pairs[1..] == [(k2, v2)];
    OneEntry(k2, v2);
  }

  /** One entry packs as its key, then its value. */
  lemma {:induction false} OneEntry(k: Value, v: Value)
    requires Packable(k) && Packable(v)
    ensures PackPairs([(k, v)]) == Pack(k) + Pack(v)
  {
    assert [(k, v)][1..] == [];
  }

  /** str 16 and str 32: a 0x1000-byte and a 0x1_0000-byte string. */
  lemma LongStringVectors(s4k: seq<byte>, s64k: seq<byte>)
    requires |s4k| == 0x1000 && |s64k| == 0x1_0000
    ensures Pack(String(s4k)) == [0xda, 0x10, 0x00] + s4k
    ensures Pack(String(s64k)) == [0xdb, 0x00, 0x01, 0x00, 0x00] + s64k
  {
    PackIntegerOfBigEndian([0x10, 0x00]);
    ReadsFour(0x00, 0x01, 0x00, 0x00);
    PackIntegerOfBigEndian([0x00, 0x01, 0x00, 0x00]);
  }

  /** 0x1_0000 nils take array 32. */
  lemma Array32Vector()
    ensures Packable(Array(seq(0x1_0000, _ => Nil)))
    ensures Pack(Array(seq(0x1_0000, _ => Nil)))
         == [0xdd, 0x00, 0x01, 0x00, 0x00] + seq(0x1_0000, _ => 0xc0)
  {
    PackEachNils(seq(0x1_0000, _ => Nil));
    ReadsFour(0x00, 0x01, 0x00, 0x00);
    PackIntegerOfBigEndian([0x00, 0x01, 0x00, 0x00]);
  }

  /** A map of 16 entries starts with the map 16 prefix, one of 0x1_0000
      entries with the map 32 prefix; the entries follow. */
  lemma MapPrefixVectors(m16: seq<(Value, Value)>, m64k: seq<(Value, Value)>)
    requires |m16| == 16 && Packable(Map(m16))
    requires |m64k| == 0x1_0000 && Packable(Map(m64k))
    ensures Pack(Map(m16)) == [0xde, 0x00, 0x10] + PackPairs(m16)
    ensures Pack(Map(m64k)) == [0xdf, 0x00, 0x01, 0x00, 0x00] + PackPairs(m64k)
  {
    PackIntegerOfBigEndian([0x00, 0x10]);
    ReadsFour(0x00, 0x01, 0x00, 0x00);
    PackIntegerOfBigEndian([0x00, 0x01, 0x00, 0x00]);
  }

  /** fixext 2, 4, 8 and 16: marker, type, payload. */
  lemma FixextVectors(d2: seq<byte>, d4: seq<byte>, d8: seq<byte>, d16: seq<byte>)
    requires |d2| == 2 && |d4| == 4 && |d8| == 8 && |d16| == 16
    ensures Pack(Extended(5, d2)) == [0xd5, 0x05] + d2
    ensures Pack(Extended(5, d4)) == [0xd6, 0x05] + d4
    ensures Pack(Extended(5, d8)) == [0xd7, 0x05] + d8
    ensures Pack(Extended(5, d16)) == [0xd8, 0x05] + d16
  {
  }

  /** ext 32: a 0x1_0000-byte payload, the type byte after the length. */
  lemma Ext32Vector(d64k: seq<byte>)
    requires |d64k| == 0x1_0000
    ensures Pack(Extended(5, d64k)) == [0xc9, 0x00, 0x01, 0x00, 0x00, 0x05] + d64k
  {
    ReadsFour(0x00, 0x01, 0x00, 0x00);
    PackIntegerOfBigEndian([0x00, 0x01, 0x00, 0x00]);
  }
}
