/** Byte strings, the 64-bit unsigned integers used for log indexes and terms, and
    the little-endian coding of `encoding/binary`. */
module ByteStrings {
  type byte = x: int | 0 <= x < 256
  type Bytes = seq<byte>

  const TWO_32 := 0x1_0000_0000
  const TWO_64 := 0x1_0000_0000_0000_0000

  /** A `uint64`. Arithmetic on it is written with the wrapping operations below. */
  type U64 = x: int | 0 <= x < TWO_64

  /** The conversion `uint32(x)`, which drops the high bits. */
  function Uint32(x: nat): nat { if x < TWO_32 then x else x % TWO_32 }

  function Inc(x: U64): U64 { (x + 1) % TWO_64 }

  function Dec(x: U64): U64 { (x - 1) % TWO_64 }

  function Sub(x: U64, y: U64): U64 { (x - y) % TWO_64 }

  lemma NoWrap(x: U64, y: U64)
    requires y <= x
    ensures Sub(x, y) == x - y
    ensures y > 0 ==> Dec(x) == x - 1
  {
  }

  /** The operations are those of `uint64`, wrap-around included. */
  lemma WrapsAround(x: U64, y: U64)
    ensures Inc(x) == if x == TWO_64 - 1 then 0 else x + 1
    ensures Dec(x) == if x == 0 then TWO_64 - 1 else x - 1
    ensures Sub(x, y) == if y <= x then x - y else x - y + TWO_64
  {
  }

  lemma DropsHighBits(x: nat)
    ensures Uint32(x) < TWO_32 && exists q: nat :: x == q * TWO_32 + Uint32(x)
  {
    if x < TWO_32 {
      assert x == 0 * TWO_32 + Uint32(x);
    } else {
      assert x == (x / TWO_32) * TWO_32 + Uint32(x);
    }
  }

  function Pow256(n: nat): (p: nat)
    ensures p > 0
  {
    if n == 0 then 1 else 256 * Pow256(n - 1)
  }

  /** Byte `i` is `byte(x >> 8*i)`. */
  function LittleEndian(x: nat, width: nat): (bs: Bytes)
    ensures |bs| == width
  {
    seq(width, i requires 0 <= i => (x / Pow256(i)) % 256)
  }

  function FromLittleEndian(bs: Bytes): (x: nat)
    ensures x < Pow256(|bs|)
  {
    if bs == [] then 0 else bs[0] + 256 * FromLittleEndian(bs[1..])
  }

  lemma MultipleIsLarge(e: int, d: nat)
    ensures e >= 1 ==> e * d >= d
  {
    assert e * d == (e - 1) * d + d;
  }

  lemma QuotientIs(x: nat, d: nat, q: nat, r: nat)
    requires d > 0 && x == q * d + r && r < d
    ensures x / d == q
  {
    var e, f := x / d - q, q - x / d;
    assert x == (x / d) * d + x % d;
    assert e * d == r - x % d && f * d == x % d - r;
    MultipleIsLarge(e, d);
    MultipleIsLarge(f, d);
  }

  lemma ShiftTwice(x: nat, p: nat)
    requires p > 0
    ensures x / (256 * p) == (x / 256) / p
  {
    var y := x / 256;
    var q, r := y / p, y % p;
    assert y == q * p + r;
    assert x == 256 * y + x % 256;
    assert x == q * (256 * p) + (256 * r + x % 256);
    QuotientIs(x, 256 * p, q, 256 * r + x % 256);
  }

  /** The first byte, then the rest shifted down. */
  lemma LittleEndianTail(x: nat, width: nat)
    requires width > 0
    ensures LittleEndian(x, width) == [x % 256] + LittleEndian(x / 256, width - 1)
  {
    forall i | 0 < i < width
      ensures (x / Pow256(i)) % 256 == ((x / 256) / Pow256(i - 1)) % 256
    {
      ShiftTwice(x, Pow256(i - 1));
    }
  }

  lemma {:induction false} LittleEndianRoundTrip(x: nat, width: nat)
    requires x < Pow256(width)
    ensures FromLittleEndian(LittleEndian(x, width)) == x
  {
    if width > 0 {
      LittleEndianTail(x, width);
      LittleEndianRoundTrip(x / 256, width - 1);
      assert LittleEndian(x, width)[1..] == LittleEndian(x / 256, width - 1);
    }
  }

  lemma {:induction false} FromLittleEndianRoundTrip(bs: Bytes)
    ensures LittleEndian(FromLittleEndian(bs), |bs|) == bs
  {
    if bs != [] {
      var x, y := FromLittleEndian(bs), FromLittleEndian(bs[1..]);
      assert x % 256 == bs[0] && x / 256 == y;
      FromLittleEndianRoundTrip(bs[1..]);
      LittleEndianTail(x, |bs|);
      assert bs == [bs[0]] + bs[1..];
    }
  }

  lemma LittleEndianOnly(x: nat, w: Bytes)
    requires x < Pow256(|w|)
    ensures LittleEndian(x, |w|) == w <==> FromLittleEndian(w) == x
  {
    LittleEndianRoundTrip(x, |w|);
    FromLittleEndianRoundTrip(w);
  }

  lemma WordSizes()
    ensures Pow256(4) == TWO_32 && Pow256(8) == TWO_64
  {
    assert Pow256(2) == 65536;
    assert Pow256(4) == TWO_32;
    assert Pow256(6) == 65536 * TWO_32;
  }
}
