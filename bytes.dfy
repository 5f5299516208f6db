/**
 * Fixed-width integers and bytes as the encoder sees them, with the
 * arithmetic that reading a big-endian field back needs.
 *
 * Swift's `Byte`, `Int8`, `UInt32`, `Int64` and `UInt64` become newtypes over
 * the mathematical integers, so every range the encoder relies on is explicit.
 */
module Bytes {

  newtype byte = x: int | 0 <= x < 0x100
  newtype int8 = x: int | -0x80 <= x < 0x80
  newtype uint32 = x: int | 0 <= x < 0x1_0000_0000
  newtype int64 = x: int | -0x8000_0000_0000_0000 <= x < 0x8000_0000_0000_0000
  newtype uint64 = x: int | 0 <= x < 0x1_0000_0000_0000_0000

  /** 256 to the power n: how many values an n-byte field holds. */
  function Pow256(n: nat): (r: nat)
    ensures r > 0
  {
    if n == 0 then 1 else 256 * Pow256(n - 1)
  }

  lemma Pow256Values()
    ensures Pow256(1) == 0x100
    ensures Pow256(2) == 0x1_0000
    ensures Pow256(4) == 0x1_0000_0000
    ensures Pow256(8) == 0x1_0000_0000_0000_0000
  {
    assert Pow256(3) == 0x100_0000;
    assert Pow256(5) == 0x100_0000_0000;
    assert Pow256(6) == 0x1_0000_0000_0000;
    assert Pow256(7) == 0x100_0000_0000_0000;
  }

  /** Swift's `Byte(truncatingBitPattern: x)`: the low eight bits of x.
      Dafny's `%` is Euclidean, so for negative x this is the two's-complement
      low byte. */
  function Truncate(x: int): (r: byte)
    ensures r as int == x % 0x100
  {
    (x % 0x100) as byte
  }

  /** Bitwise or of two bytes (Swift's `|` on `UInt8`). */
  function BitOr(a: byte, b: byte): byte
  {
    ((a as bv8) | (b as bv8)) as byte
  }

  /** Bitwise and of two bytes (Swift's `&` on `UInt8`). */
  function BitAnd(a: byte, b: byte): byte
  {
    ((a as bv8) & (b as bv8)) as byte
  }

  /** Or-ing a count below 0x20 into 0xa0 is addition. */
  lemma BitOrA0(n: byte)
    requires n < 0x20
    ensures BitOr(0xa0, n) as int == 0xa0 + n as int
  {
    var b, marker := n as bv8, (0xa0 as byte) as bv8;
    assert marker == 0xa0;
    assert b < 0x20;
    assert marker | b == 0xa0 + b;
    assert BitOr(0xa0, n) == (0xa0 + b) as byte;
    assert (0xa0 + b) as int == 0xa0 + b as int;
  }

  /** Or-ing a count below 0x10 into 0x90 or 0x80 is addition. */
  lemma BitOrNibble(marker: byte, n: byte)
    requires marker == 0x80 || marker == 0x90
    requires n < 0x10
    ensures BitOr(marker, n) as int == marker as int + n as int
  {
    var b, m := n as bv8, marker as bv8;
    assert b < 0x10;
    if marker == 0x80 {
      assert m == 0x80;
      assert m | b == 0x80 + b;
      assert BitOr(marker, n) == (0x80 + b) as byte;
      assert (0x80 + b) as int == 0x80 + b as int;
    } else {
      assert m == 0x90;
      assert m | b == 0x90 + b;
      assert BitOr(marker, n) == (0x90 + b) as byte;
      assert (0x90 + b) as int == 0x90 + b as int;
    }
  }

  /** Masking a byte of the negative-fixint range with 0x1f keeps its
      distance from 0xe0. */
  lemma BitAndLowFive(b: byte)
    requires b >= 0xe0
    ensures BitAnd(0x1f, b) as int == b as int - 0xe0
  {
    var x, mask := b as bv8, (0x1f as byte) as bv8;
    assert mask == 0x1f;
    MaskLowFive(x);
    assert BitAnd(0x1f, b) == (x - 0xe0) as byte;
  }

  /** The same fact on eight-bit vectors. */
  lemma MaskLowFive(x: bv8)
    requires x >= 0xe0
    ensures 0x1f & x == x - 0xe0
    ensures (x - 0xe0) as int == x as int - 0xe0
  {
  }

  /** The unsigned value of a byte string read most significant byte first. */
  function FromBigEndian(bs: seq<byte>): (r: nat)
    ensures r < Pow256(|bs|)
  {
    if bs == [] then 0
    else
      var init := FromBigEndian(bs[..|bs| - 1]);
      assert init * 256 <= (Pow256(|bs| - 1) - 1) * 256;
      init * 256 + bs[|bs| - 1] as nat
  }

  /** Pow256 grows with its exponent. */
  lemma {:induction false} Pow256Grows(n: nat, m: nat)
    requires n <= m
    ensures Pow256(n) <= Pow256(m)
    decreases m
  {
    if n < m {
      Pow256Grows(n, m - 1);
    }
  }

  /** At most eight bytes read as a number that fits in 64 bits. */
  lemma BigEndianFitsUInt64(bs: seq<byte>)
    requires |bs| <= 8
    ensures FromBigEndian(bs) < 0x1_0000_0000_0000_0000
  {
    Pow256Values();
    Pow256Grows(|bs|, 8);
  }

  /** One byte reads as itself. */
  lemma FromBigEndianOfByte(bs: seq<byte>)
    requires |bs| == 1
    ensures FromBigEndian(bs) == bs[0] as int
  {
    assert bs[..0] == [];
  }

  /** Division with remainder has exactly one answer. */
  lemma DivModUnique(x: int, d: int, q: int, r: int)
    requires d > 0 && 0 <= r < d && x == d * q + r
    ensures x / d == q && x % d == r
  {
    var q', r' := x / d, x % d;
    assert d * (q - q') == r' - r;
    MultipleBelowDivisor(d, q - q');
  }

  /** The only multiple of d strictly between -d and d is zero. */
  lemma MultipleBelowDivisor(d: int, k: int)
    requires d > 0 && -d < d * k < d
    ensures k == 0
  {
  }

  /** Dividing by 256 * p is dividing by 256 and then by p; the remainder
      splits the same way. */
  lemma DivModByProduct(x: nat, p: nat)
    requires p > 0
    ensures x / (256 * p) == (x / 256) / p
    ensures x % (256 * p) == ((x / 256) % p) * 256 + x % 256
  {
    var q, r := x / 256, x % 256;
    var a, b := q / p, q % p;
    assert x == (256 * p) * a + (b * 256 + r) by {
      assert x == 256 * q + r;
      assert q == p * a + b;
    }
    assert b * 256 + r < 256 * p by {
      assert b <= p - 1;
      assert b * 256 <= (p - 1) * 256;
    }
    DivModUnique(x, 256 * p, a, b * 256 + r);
  }
}
