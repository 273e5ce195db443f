/** Bytes and fixed-width integers as Java sees them, and the little-endian
    layout that `ByteBuffer` uses once its order is `GHDF.ENDIANNESS`
    (little-endian). */
module Bytes {

  /** An octet on the wire; Java's signed `byte` is modelled by its pattern 0..255. */
  type byte = b: int | 0 <= b < 0x100

  type int8 = x: int | -0x80 <= x < 0x80
  type int16 = x: int | -0x8000 <= x < 0x8000
  type int32 = x: int | -0x8000_0000 <= x < 0x8000_0000
  type int64 = x: int | -0x8000_0000_0000_0000 <= x < 0x8000_0000_0000_0000
  /** Raw bit patterns of Java `float` and `double` values. */
  type uint32 = x: int | 0 <= x < 0x1_0000_0000
  type uint64 = x: int | 0 <= x < 0x1_0000_0000_0000_0000

  /** 256 to the power n: the number of patterns of an n-byte integer. */
  function Pow256(n: nat): (r: nat)
    ensures r > 0
  {
    if n == 0 then 1 else 0x100 * Pow256(n - 1)
  }

  lemma Pow256Widths()
    ensures Pow256(1) == 0x100 && Pow256(2) == 0x1_0000
    ensures Pow256(4) == 0x1_0000_0000 && Pow256(8) == 0x1_0000_0000_0000_0000
  {
    assert Pow256(2) == 0x100 * Pow256(1);
    assert Pow256(3) == 0x100 * Pow256(2);
    assert Pow256(4) == 0x100 * Pow256(3);
    assert Pow256(8) == 0x100 * 0x100 * 0x100 * 0x100 * Pow256(4) by {
      assert Pow256(8) == 0x100 * Pow256(7);
      assert Pow256(7) == 0x100 * Pow256(6);
      assert Pow256(6) == 0x100 * Pow256(5);
      assert Pow256(5) == 0x100 * Pow256(4);
    }
  }

  /** 2 to the power n. */
  function Pow2(n: nat): (r: nat)
    ensures r > 0
  {
    if n == 0 then 1 else 2 * Pow2(n - 1)
  }

  lemma {:induction false} Pow2Add(m: nat, n: nat)
    ensures Pow2(m + n) == Pow2(m) * Pow2(n)
  {
    if n > 0 {
      Pow2Add(m, n - 1);
      assert Pow2(m + n) == 2 * Pow2(m + n - 1);
    }
  }

  lemma Pow2Of32()
    ensures Pow2(32) == 0x1_0000_0000
  {
    assert Pow2(8) == 0x100;
    assert Pow2(16) == 0x1_0000;
    assert Pow2(24) == 0x100_0000;
  }

  /** Java's `|` on the low `bits` bits of two non-negative numbers. */
  function BitOr(a: nat, b: nat, bits: nat): nat {
    if bits == 0 then 0
    else 2 * BitOr(a / 2, b / 2, bits - 1) + (if a % 2 == 1 || b % 2 == 1 then 1 else 0)
  }

  lemma {:induction false} BitOrBound(a: nat, b: nat, bits: nat)
    ensures BitOr(a, b, bits) < Pow2(bits)
  {
    if bits > 0 {
      BitOrBound(a / 2, b / 2, bits - 1);
    }
  }

  /** Java's `<<` by s on the 32-bit pattern of an `int`: bits shifted past
      the top are lost. */
  function ShiftLeft(x: nat, s: nat): (y: nat)
    ensures y < 0x1_0000_0000
    decreases s
  {
    if s == 0 then x % 0x1_0000_0000 else ShiftLeft(2 * x % 0x1_0000_0000, s - 1)
  }

  /** A shift that loses no bit is a multiplication. */
  lemma {:induction false} ShiftLeftExact(x: nat, s: nat)
    requires x * Pow2(s) < 0x1_0000_0000
    ensures ShiftLeft(x, s) == x * Pow2(s)
    decreases s
  {
    if s == 0 {
      assert x * Pow2(s) == x;
    } else {
      DoubleFactor(x, s);
      ShiftUnfold(x, s);
      ShiftLeftExact(2 * x, s - 1);
    }
  }

  lemma DoubleFactor(x: nat, s: nat)
    requires s > 0
    ensures x * Pow2(s) == (2 * x) * Pow2(s - 1) && 2 * x <= x * Pow2(s)
  {
    var p := Pow2(s - 1);
    assert x * Pow2(s) == (2 * x) * p;
    MulMono(2 * x, p);
  }

  lemma ShiftUnfold(x: nat, s: nat)
    requires s > 0 && 2 * x < 0x1_0000_0000
    ensures ShiftLeft(x, s) == ShiftLeft(2 * x, s - 1)
  {
  }

  lemma MulMono(a: nat, p: nat)
    requires p > 0
    ensures a <= a * p
  {
  }

  /** OR of a number below 2^k with a multiple of 2^k is their sum: the
      operands have no bit in common. */
  lemma {:induction false} BitOrDisjoint(a: nat, c: nat, k: nat, bits: nat)
    requires a < Pow2(k) && a + c * Pow2(k) < Pow2(bits)
    ensures BitOr(a, c * Pow2(k), bits) == a + c * Pow2(k)
    decreases bits
  {
    if bits > 0 {
      if k == 0 {
        assert a == 0 && c * Pow2(k) == c;
        BitOrDisjoint(0, c / 2, 0, bits - 1);
        assert (c / 2) * Pow2(0) == c / 2;
      } else {
        HalfFactor(c, k);
        BitOrDisjoint(a / 2, c, k - 1, bits - 1);
      }
    }
  }

  lemma HalfFactor(c: nat, k: nat)
    requires k > 0
    ensures (c * Pow2(k)) / 2 == c * Pow2(k - 1) && (c * Pow2(k)) % 2 == 0
  {
    assert c * Pow2(k) == 2 * (c * Pow2(k - 1));
  }

  /** The two's-complement pattern of x truncated to `width` bytes, read
      unsigned: what a Java narrowing cast keeps of x, as a natural number. */
  function ToUnsigned(x: int, width: nat): (u: nat)
    ensures u < Pow256(width)
  {
    x % Pow256(width)
  }

  /** The Java signed integer whose `width`-byte pattern is u. */
  function ToSigned(u: nat, width: nat): (x: int)
    requires 1 <= width && u < Pow256(width)
    ensures -(Pow256(width) / 2) <= x < Pow256(width) / 2
  {
    if u < Pow256(width) / 2 then u else u - Pow256(width)
  }

  /** The widths of Java's integer types: byte, short, int and long. */
  predicate IsJavaWidth(width: nat) {
    width == 1 || width == 2 || width == 4 || width == 8
  }

  /** Signed values survive the trip through their pattern. */
  lemma SignedRoundTrip(x: int, width: nat)
    requires IsJavaWidth(width) && -(Pow256(width) / 2) <= x < Pow256(width) / 2
    ensures ToSigned(ToUnsigned(x, width), width) == x
  {
    Pow256Widths();
    PatternOf(x, Pow256(width));
  }

  /** The remainder of a number within one modulus of 0: the number itself,
      or one modulus above it when it is negative. */
  lemma PatternOf(x: int, p: int)
    requires p > 0 && -p <= x < p
    ensures x % p == if x < 0 then x + p else x
  {
    if x < 0 {
      assert x == -1 * p + (x + p);
    }
  }

  /** The `width`-byte little-endian encoding of u, least significant byte first. */
  function LittleEndian(u: nat, width: nat): (bs: seq<byte>)
    requires u < Pow256(width)
    ensures |bs| == width
  {
    if width == 0 then [] else [u % 0x100] + LittleEndian(u / 0x100, width - 1)
  }

  /** The unsigned number whose little-endian encoding is bs. */
  function FromLittleEndian(bs: seq<byte>): (u: nat)
    ensures u < Pow256(|bs|)
  {
    if bs == [] then 0
    else
      var rest := FromLittleEndian(bs[1..]);
      assert 0x100 * rest <= 0x100 * (Pow256(|bs| - 1) - 1);
      bs[0] + 0x100 * rest
  }

  lemma {:induction false} LittleEndianRoundTrip(u: nat, width: nat)
    requires u < Pow256(width)
    ensures FromLittleEndian(LittleEndian(u, width)) == u
  {
    if width > 0 {
      var bs := LittleEndian(u, width);
      LittleEndianRoundTrip(u / 0x100, width - 1);
      assert bs[1..] == LittleEndian(u / 0x100, width - 1);
    }
  }

  lemma {:induction false} FromLittleEndianRoundTrip(bs: seq<byte>)
    ensures LittleEndian(FromLittleEndian(bs), |bs|) == bs
  {
    if bs != [] {
      FromLittleEndianRoundTrip(bs[1..]);
      var u := FromLittleEndian(bs);
      assert u % 0x100 == bs[0] && u / 0x100 == FromLittleEndian(bs[1..]);
    }
  }
}
