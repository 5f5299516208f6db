/**
 * What the bytes produced by the encoder mean: the big-endian splitter reads
 * back as its input, each ladder picks the marker and width its range calls
 * for, headers carry the length or count, payloads are appended unchanged,
 * and containers concatenate the encodings of their children in order.
 */
module PackProperties {
  import opened Bytes
  import opened Values
  import opened Encoder

  /** `bs` is `marker` followed by a `width`-byte big-endian field that reads
      as `value`. */
  predicate MarkedField(bs: seq<byte>, marker: byte, width: nat, value: int)
  {
    |bs| == 1 + width && bs[0] == marker && FromBigEndian(bs[1..]) == value
  }

  /** The `parts` bytes of packInteger, read most significant first, give
      back the value modulo 256^parts. */
  lemma {:induction false} PackIntegerBigEndian(v: uint64, parts: nat)
    requires 0 < parts <= 8
    ensures FromBigEndian(PackInteger(v, parts)) == v as int % Pow256(parts)
    decreases parts
  {
    var s := PackInteger(v, parts);
    if parts == 1 {
      assert Pow256(1) == 256 && Pow256(0) == 1;
      assert s == [Truncate(v as int)];
      assert s[..0] == [];
    } else {
      PackIntegerSplit(v, parts);
      PackIntegerBigEndian(v / 256, parts - 1);
      DivModByProduct(v as int, Pow256(parts - 1));
    }
  }

  /** All but the last byte of packInteger(v, parts) are
      packInteger(v / 256, parts - 1); the last is v's low byte. */
  lemma PackIntegerSplit(v: uint64, parts: nat)
    requires 1 < parts <= 8
    ensures PackInteger(v, parts)[..parts - 1] == PackInteger(v / 256, parts - 1)
    ensures PackInteger(v, parts)[parts - 1] == Truncate(v as int)
  {
    var s, t := PackInteger(v, parts), PackInteger(v / 256, parts - 1);
    forall i | 0 <= i < parts - 1
      ensures s[i] == t[i]
    {
      var k := parts - 2 - i;
      assert Pow256(k + 1) == 256 * Pow256(k);
      DivModByProduct(v as int, Pow256(k));
    }
    assert s[..parts - 1] == t;
    assert Pow256(0) == 1;
    assert s[parts - 1] == Truncate(v as int / Pow256(0));
  }

  /** When the value fits in `parts` bytes, reading them gives it back. */
  lemma PackIntegerRoundTrip(v: uint64, parts: nat)
    requires 0 < parts <= 8 && v as int < Pow256(parts)
    ensures FromBigEndian(PackInteger(v, parts)) == v as int
  {
    PackIntegerBigEndian(v, parts);
    DivModUnique(v as int, Pow256(parts), 0, v as int);
  }

  /** Splitting the number a big-endian string of at most eight bytes
      reads as gives back the string: packInteger is onto the strings of
      its length. */
  lemma {:induction false} PackIntegerOfBigEndian(bs: seq<byte>)
    requires 0 < |bs| <= 8
    ensures FromBigEndian(bs) < 0x1_0000_0000_0000_0000
    ensures PackInteger(FromBigEndian(bs) as uint64, |bs|) == bs
    decreases |bs|
  {
    BigEndianFitsUInt64(bs);
    if |bs| == 1 {
      FromBigEndianOfByte(bs);
      PackIntegerOneByte(bs[0]);
    } else {
      var v := FromBigEndian(bs) as uint64;
      var init, last := bs[..|bs| - 1], bs[|bs| - 1];
      assert bs == init + [last];
      DivModUnique(v as int, 256, FromBigEndian(init), last as int);
      PackIntegerOfBigEndian(init);
      PackIntegerSnoc(v, init, last);
    }
  }

  /** packInteger in one part is the low byte. */
  lemma PackIntegerOneByte(b: byte)
    ensures PackInteger(b as int as uint64, 1) == [b]
  {
    var p := PackInteger(b as int as uint64, 1);
    assert Pow256(0) == 1;
    assert p[0] == Truncate(b as int / 1);
    assert p == [p[0]];
  }

  /** packInteger with one more part appends the low byte to the split of
      the value divided by 256. */
  lemma PackIntegerSnoc(v: uint64, init: seq<byte>, last: byte)
    requires 0 < |init| < 8
    requires v as int % 256 == last as int
    requires PackInteger(v / 256, |init|) == init
    ensures PackInteger(v, |init| + 1) == init + [last]
  {
    var n := |init| + 1;
    PackIntegerSplit(v, n);
    var p := PackInteger(v, n);
    assert p == p[..n - 1] + [p[n - 1]];
  }

  /** A marker followed by packInteger of a value that fits is a marked
      field holding that value. */
  lemma MarkedPackInteger(marker: byte, v: uint64, parts: nat)
    requires 0 < parts <= 8 && v as int < Pow256(parts)
    ensures MarkedField([marker] + PackInteger(v, parts), marker, parts, v as int)
  {
    PackIntegerRoundTrip(v, parts);
    assert ([marker] + PackInteger(v, parts))[1..] == PackInteger(v, parts);
  }

  /** The unsigned width ladder: a one-byte positive fixint up to 0x7f, then
      uint 8, 16, 32 and 64 with the value big-endian after the marker. */
  lemma PackPositiveIntegerLadder(v: uint64)
    ensures v <= 0x7f ==> PackPositiveInteger(v) == [v as int as byte]
    ensures 0x7f < v <= 0xff ==> PackPositiveInteger(v) == [0xcc, v as int as byte]
    ensures 0xff < v <= 0xffff ==> MarkedField(PackPositiveInteger(v), 0xcd, 2, v as int)
    ensures 0xffff < v <= 0xffff_ffff ==> MarkedField(PackPositiveInteger(v), 0xce, 4, v as int)
    ensures 0xffff_ffff < v ==> MarkedField(PackPositiveInteger(v), 0xcf, 8, v as int)
  {
    Pow256Values();
    var r := PackPositiveInteger(v);
    if 0xff < v <= 0xffff {
      MarkedPackInteger(0xcd, v, 2);
    } else if 0xffff < v <= 0xffff_ffff {
      MarkedPackInteger(0xce, v, 4);
    } else if 0xffff_ffff < v {
      MarkedPackInteger(0xcf, v, 8);
    }
  }

  /** The negative width ladder, cut at the code's thresholds: a one-byte
      negative fixint from -0x20, then int 8 from -0x7f, int 16 from -0x7fff,
      int 32 from -0x7fff_ffff and int 64 below; every form carries the
      two's-complement bit pattern of the value (the value modulo 2^bits). */
  lemma PackNegativeIntegerLadder(v: int64)
    requires v < 0
    ensures -0x20 <= v ==> PackNegativeInteger(v) == [(v as int % 0x100) as byte]
    ensures -0x7f <= v < -0x20 ==> PackNegativeInteger(v) == [0xd0, (v as int % 0x100) as byte]
    ensures -0x7fff <= v < -0x7f ==>
      MarkedField(PackNegativeInteger(v), 0xd1, 2, v as int % 0x1_0000)
    ensures -0x7fff_ffff <= v < -0x7fff ==>
      MarkedField(PackNegativeInteger(v), 0xd2, 4, v as int % 0x1_0000_0000)
    ensures v < -0x7fff_ffff ==>
      MarkedField(PackNegativeInteger(v), 0xd3, 8, v as int % 0x1_0000_0000_0000_0000)
  {
    if -0x20 <= v {
      BitAndLowFive(Truncate(v as int));
    } else if v < -0x7f {
      PackNegativeIntegerWide(v);
    }
  }

  /** Below int 8, the negative ladder's fields carry the low 16, 32 or 64
      bits of the value. */
  lemma PackNegativeIntegerWide(v: int64)
    requires v < -0x7f
    ensures -0x7fff <= v ==>
      MarkedField(PackNegativeInteger(v), 0xd1, 2, v as int % 0x1_0000)
    ensures -0x7fff_ffff <= v < -0x7fff ==>
      MarkedField(PackNegativeInteger(v), 0xd2, 4, v as int % 0x1_0000_0000)
    ensures v < -0x7fff_ffff ==>
      MarkedField(PackNegativeInteger(v), 0xd3, 8, v as int % 0x1_0000_0000_0000_0000)
  {
    Pow256Values();
    if -0x7fff <= v {
      MarkedPackInteger(0xd1, (v as int % 0x1_0000) as uint64, 2);
    } else if -0x7fff_ffff <= v {
      MarkedPackInteger(0xd2, (v as int % 0x1_0000_0000) as uint64, 4);
    } else {
      MarkedPackInteger(0xd3, (v as int % 0x1_0000_0000_0000_0000) as uint64, 8);
    }
  }


  /** A negative fixint byte is the value's low byte: 0xe0 + (value mod 32)
      is value mod 256 on [-0x20, -1]. */
  lemma NegativeFixintIsLowByte(v: int64)
    requires -0x20 <= v < 0
    ensures PackNegativeInteger(v)[0] as int == 0xe0 + v as int % 0x20
    ensures PackNegativeInteger(v)[0] as int == v as int + 0x100
  {
    BitAndLowFive(Truncate(v as int));
  }

  /** The fixed shapes: nil, the two booleans, and the floating-point bit
      patterns big-endian after their markers. A signed value that is not
      negative is packed exactly as the unsigned value. */
  lemma PackFixedShapes(b: bool, n: int64, f: uint32, d: uint64)
    ensures Pack(Nil) == [0xc0]
    ensures Pack(Bool(b)) == [if b then 0xc3 else 0xc2]
    ensures n >= 0 ==> Pack(Int(n)) == Pack(UInt(n as int as uint64))
    ensures n < 0 ==> Pack(Int(n)) == PackNegativeInteger(n)
    ensures MarkedField(Pack(Float(f)), 0xca, 4, f as int)
    ensures MarkedField(Pack(Double(d)), 0xcb, 8, d as int)
  {
    Pow256Values();
    MarkedPackInteger(0xca, f as int as uint64, 4);
    MarkedPackInteger(0xcb, d, 8);
  }

  /** A string is its header followed by its UTF-8 bytes unchanged. The
      header is fixstr (0xa0 + length) only up to 25 bytes, then str 8, 16 and
      32 with the length big-endian. */
  lemma PackStringLayout(s: seq<byte>)
    requires |s| <= MaxCount
    ensures Pack(String(s)) == StringHeader(|s|) + s
    ensures |s| <= 0x19 ==> StringHeader(|s|) == [(0xa0 + |s|) as byte]
    ensures 0x19 < |s| <= 0xff ==> StringHeader(|s|) == [0xd9, |s| as byte]
    ensures 0xff < |s| <= 0xffff ==> MarkedField(StringHeader(|s|), 0xda, 2, |s|)
    ensures 0xffff < |s| ==> MarkedField(StringHeader(|s|), 0xdb, 4, |s|)
  {
    Pow256Values();
    var n := |s|;
    var h := StringHeader(n);
    if n <= 0x19 {
      BitOrA0(n as byte);
    } else if 0xff < n <= 0xffff {
      MarkedPackInteger(0xda, n as uint64, 2);
    } else if 0xffff < n {
      MarkedPackInteger(0xdb, n as uint64, 4);
    }
  }

  /** A binary blob is its header followed by its bytes unchanged: bin 8, 16
      and 32 with the length big-endian, and no immediate form. */
  lemma PackBinaryLayout(data: seq<byte>)
    requires |data| <= MaxCount
    ensures Pack(Binary(data)) == BinaryHeader(|data|) + data
    ensures |data| <= 0xff ==> BinaryHeader(|data|) == [0xc4, |data| as byte]
    ensures 0xff < |data| <= 0xffff ==> MarkedField(BinaryHeader(|data|), 0xc5, 2, |data|)
    ensures 0xffff < |data| ==> MarkedField(BinaryHeader(|data|), 0xc6, 4, |data|)
  {
    Pow256Values();
    var n := |data|;
    var h := BinaryHeader(n);
    if 0xff < n <= 0xffff {
      MarkedPackInteger(0xc5, n as uint64, 2);
    } else if 0xffff < n {
      MarkedPackInteger(0xc6, n as uint64, 4);
    }
  }

  /** An array is its header followed by the encodings of its elements in
      order. The header is fixarray (0x90 + count) only up to 14 elements,
      then array 16 and 32 with the count big-endian. */
  lemma PackArrayLayout(items: seq<Value>)
    requires Packable(Array(items))
    ensures Pack(Array(items)) == ArrayHeader(|items|) + PackEach(items)
    ensures |items| <= 0xe ==> ArrayHeader(|items|) == [(0x90 + |items|) as byte]
    ensures 0xe < |items| <= 0xffff ==> MarkedField(ArrayHeader(|items|), 0xdc, 2, |items|)
    ensures 0xffff < |items| ==> MarkedField(ArrayHeader(|items|), 0xdd, 4, |items|)
  {
    Pow256Values();
    var n := |items|;
    var h := ArrayHeader(n);
    if n <= 0xe {
      BitOrNibble(0x90, n as byte);
    } else if n <= 0xffff {
      MarkedPackInteger(0xdc, n as uint64, 2);
    } else {
      MarkedPackInteger(0xdd, n as uint64, 4);
    }
  }

  /** A map is its header followed by, for each entry in iteration order, the
      encoding of its key and then of its value. The header is fixmap
      (0x80 + count) only up to 14 entries, then map 16 and 32 with the count
      big-endian. */
  lemma PackMapLayout(pairs: seq<(Value, Value)>)
    requires Packable(Map(pairs))
    ensures Pack(Map(pairs)) == MapHeader(|pairs|) + PackPairs(pairs)
    ensures |pairs| <= 0xe ==> MapHeader(|pairs|) == [(0x80 + |pairs|) as byte]
    ensures 0xe < |pairs| <= 0xffff ==> MarkedField(MapHeader(|pairs|), 0xde, 2, |pairs|)
    ensures 0xffff < |pairs| ==> MarkedField(MapHeader(|pairs|), 0xdf, 4, |pairs|)
  {
    Pow256Values();
    var n := |pairs|;
    var h := MapHeader(n);
    if n <= 0xe {
      BitOrNibble(0x80, n as byte);
    } else if n <= 0xffff {
      MarkedPackInteger(0xde, n as uint64, 2);
    } else {
      MarkedPackInteger(0xdf, n as uint64, 4);
    }
  }

  /** An extended value is its header followed by its payload unchanged.
      Payloads of exactly 1, 2, 4, 8 or 16 bytes use fixext 1..16 (0xd4..0xd8)
      and then the type byte; any other length, zero included, uses ext 8, 16
      or 32 with the length big-endian and then the type byte. The type byte
      is the type's bit pattern, type mod 256. */
  lemma PackExtendedLayout(t: int8, data: seq<byte>)
    requires |data| <= MaxCount
    ensures Pack(Extended(t, data)) == ExtendedHeader(t, |data|) + data
    ensures |data| == 1 ==> ExtendedHeader(t, |data|) == [0xd4, (t as int % 0x100) as byte]
    ensures |data| == 2 ==> ExtendedHeader(t, |data|) == [0xd5, (t as int % 0x100) as byte]
    ensures |data| == 4 ==> ExtendedHeader(t, |data|) == [0xd6, (t as int % 0x100) as byte]
    ensures |data| == 8 ==> ExtendedHeader(t, |data|) == [0xd7, (t as int % 0x100) as byte]
    ensures |data| == 16 ==> ExtendedHeader(t, |data|) == [0xd8, (t as int % 0x100) as byte]
    ensures |data| !in {1, 2, 4, 8, 16} && |data| <= 0xff ==>
      ExtendedHeader(t, |data|) == [0xc7, |data| as byte, (t as int % 0x100) as byte]
    ensures 0xff < |data| <= 0xffff ==>
      var h := ExtendedHeader(t, |data|);
      && MarkedField(h[..3], 0xc8, 2, |data|)
      && h[3..] == [(t as int % 0x100) as byte]
    ensures 0xffff < |data| ==>
      var h := ExtendedHeader(t, |data|);
      && MarkedField(h[..5], 0xc9, 4, |data|)
      && h[5..] == [(t as int % 0x100) as byte]
  {
    Pow256Values();
    var n := |data|;
    var h := ExtendedHeader(t, n);
    if 0xff < n <= 0xffff {
      MarkedPackInteger(0xc8, n as uint64, 2);
      assert h[..3] == [0xc8] + PackInteger(n as uint64, 2);
    } else if 0xffff < n {
      MarkedPackInteger(0xc9, n as uint64, 4);
      assert h[..5] == [0xc9] + PackInteger(n as uint64, 4);
    }
  }

  /** flatMap over a concatenation is the concatenation of the flatMaps. */
  lemma {:induction false} PackEachAppend(xs: seq<Value>, ys: seq<Value>)
    requires forall i | 0 <= i < |xs| :: Packable(xs[i])
    requires forall i | 0 <= i < |ys| :: Packable(ys[i])
    ensures forall i | 0 <= i < |xs + ys| :: Packable((xs + ys)[i])
    ensures PackEach(xs + ys) == PackEach(xs) + PackEach(ys)
    decreases xs
  {
    if xs != [] {
      assert (xs + ys)[1..] == xs[1..] + ys;
      PackEachAppend(xs[1..], ys);
    } else {
      assert xs + ys == ys;
    }
  }

  /** Packing the entries of a map is packing the flat key, value, key,
      value... list that `dict.flatMap { [$0, $1] }` builds. */
  lemma {:induction false} PackPairsFlatten(pairs: seq<(Value, Value)>)
    requires forall i | 0 <= i < |pairs| :: Packable(pairs[i].0) && Packable(pairs[i].1)
    ensures forall i | 0 <= i < |FlattenPairs(pairs)| :: Packable(FlattenPairs(pairs)[i])
    ensures PackPairs(pairs) == PackEach(FlattenPairs(pairs))
    decreases pairs
  {
    if pairs != [] {
      var rest := FlattenPairs(pairs[1..]);
      PackPairsFlatten(pairs[1..]);
      var head := [pairs[0].0, pairs[0].1];
      assert FlattenPairs(pairs) == head + rest;
      PackEachAppend(head, rest);
      assert PackEach(head) == Pack(pairs[0].0) + Pack(pairs[0].1) by {
        assert head[1..][1..] == [];
      }
    }
  }

  /** Equivalent values have the same encoding: the encoder never tells
      `.Int(n)` from `.UInt(n)` for n >= 0, at any depth. */
  lemma {:induction false} PackNormalize(v: Value)
    requires Packable(v)
    ensures Packable(Normalize(v))
    ensures Pack(Normalize(v)) == Pack(v)
    decreases v
  {
    NormalizePackable(v);
    match v
    case Array(items) => PackEachNormalize(items);
    case Map(pairs) => PackPairsNormalize(pairs);
    case _ =>
  }

  lemma {:induction false} PackEachNormalize(items: seq<Value>)
    requires forall i | 0 <= i < |items| :: Packable(items[i])
    ensures forall i | 0 <= i < |items| :: Packable(NormalizeEach(items)[i])
    ensures PackEach(NormalizeEach(items)) == PackEach(items)
    decreases items
  {
    if items != [] {
      PackNormalize(items[0]);
      PackEachNormalize(items[1..]);
      var n := NormalizeEach(items);
      assert n[0] == Normalize(items[0]) && n[1..] == NormalizeEach(items[1..]);
    }
  }

  lemma {:induction false} PackPairsNormalize(pairs: seq<(Value, Value)>)
    requires forall i | 0 <= i < |pairs| :: Packable(pairs[i].0) && Packable(pairs[i].1)
    ensures forall i | 0 <= i < |pairs| ::
      Packable(NormalizePairs(pairs)[i].0) && Packable(NormalizePairs(pairs)[i].1)
    ensures PackPairs(NormalizePairs(pairs)) == PackPairs(pairs)
    decreases pairs
  {
    if pairs != [] {
      assert pairs[0] in pairs;
      assert pairs[0].0 < pairs[0] && pairs[0].1 < pairs[0];
      PackNormalize(pairs[0].0);
      PackNormalize(pairs[0].1);
      PackPairsNormalize(pairs[1..]);
      var n := NormalizePairs(pairs);
      assert n[0] == (Normalize(pairs[0].0), Normalize(pairs[0].1));
      assert n[1..] == NormalizePairs(pairs[1..]);
    }
  }

  /** Equivalent packable values are packed to the same bytes. */
  lemma PackRespectsEquiv(a: Value, b: Value)
    requires Packable(a) && Packable(b) && Equiv(a, b)
    ensures Pack(a) == Pack(b)
  {
    PackNormalize(a);
    PackNormalize(b);
  }
}
