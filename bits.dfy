/** Two's-complement bits of unbounded integers, System.Numerics.BigInteger's `&`, and its
    byte-array constructor.

    A BigInteger behaves as an infinite two's-complement bit string: bit `i` of `n` is
    `floor(n / 2^i) mod 2`, and a negative number has all but finitely many bits set.
 */
module Bits {
  import opened ModArith

  newtype byte = x: int | 0 <= x < 256

  /** Bit `i` of `n` in two's complement. */
  function Bit(n: int, i: nat): int
    decreases i
  {
    if i == 0 then n % 2 else Bit(n / 2, i - 1)
  }

  /** `a & b` for a non-negative `b`, one bit at a time from the least significant; `a` may be
      negative. The result never exceeds `b`. */
  function BitAnd(a: int, b: nat): (r: nat)
    ensures r <= b
    decreases b
  {
    if b == 0 then 0
    else 2 * BitAnd(a / 2, b / 2) + (if a % 2 == 1 && b % 2 == 1 then 1 else 0)
  }

  lemma {:induction false} BitOfZero(i: nat)
    ensures Bit(0, i) == 0
  {
    if i > 0 {
      BitOfZero(i - 1);
    }
  }

  /** Bit `i` of `a & b` is set exactly when bit `i` is set in both `a` and `b`. */
  lemma {:induction false} BitAndBits(a: int, b: nat, i: nat)
    ensures Bit(BitAnd(a, b), i) == (if Bit(a, i) == 1 && Bit(b, i) == 1 then 1 else 0)
    decreases i
  {
    var c := if a % 2 == 1 && b % 2 == 1 then 1 else 0;
    if b == 0 {
      BitOfZero(i);
    } else if i == 0 {
      ModAddMultiple(BitAnd(a / 2, b / 2), c, 2);
    } else {
      DivModUnique(BitAnd(a, b), 2, BitAnd(a / 2, b / 2), c);
      BitAndBits(a / 2, b / 2, i - 1);
    }
  }

  /** The bits set in `a & b` are a subset of the bits set in `b`. */
  lemma BitAndSubset(a: int, b: nat, i: nat)
    requires Bit(BitAnd(a, b), i) == 1
    ensures Bit(b, i) == 1 && Bit(a, i) == 1
  {
    BitAndBits(a, b, i);
  }

  /** Every bit of -1 is set, so `-1 & b` is `b`. */
  lemma {:induction false} BitAndMinusOne(b: nat)
    ensures BitAnd(-1, b) == b
    decreases b
  {
    if b > 0 {
      DivModUnique(-1, 2, -1, 1);
      BitAndMinusOne(b / 2);
    }
  }

  /** The value of bytes read as an unsigned little-endian number. */
  function Unsigned(bs: seq<byte>): (n: nat)
    ensures n < Pow(256, |bs|)
  {
    if bs == [] then 0 else bs[0] as int + 256 * Unsigned(bs[1..])
  }

  /** The last byte is the most significant one. */
  lemma {:induction false} UnsignedLast(bs: seq<byte>)
    requires |bs| > 0
    ensures Unsigned(bs) == Unsigned(bs[..|bs| - 1]) + bs[|bs| - 1] as int * Pow(256, |bs| - 1)
  {
    if |bs| > 1 {
      assert bs[1..][..|bs| - 2] == bs[..|bs| - 1][1..];
      UnsignedLast(bs[1..]);
    } else {
      assert bs[..0] == [];
    }
  }

  /** new BigInteger(byte[]): little-endian two's complement, so the top bit of the last byte
      is the sign. The value agrees with the unsigned reading modulo 2^(8 |bs|). */
  function SignedLittleEndian(bs: seq<byte>): (v: int)
    ensures Unsigned(bs) == v % Pow(256, |bs|)
  {
    var u, m := Unsigned(bs), Pow(256, |bs|);
    if |bs| > 0 && bs[|bs| - 1] >= 128 then
      DivModUnique(u - m, m, -1, u);
      u - m
    else
      DivModUnique(u, m, 0, u);
      u
  }

  /** The value is negative exactly when the last byte has its top bit set, and it lies in the
      two's-complement range of `8 * |bs|` bits. */
  lemma SignedLittleEndianRange(bs: seq<byte>)
    requires |bs| > 0
    ensures SignedLittleEndian(bs) < 0 <==> bs[|bs| - 1] >= 128
    ensures -128 * Pow(256, |bs| - 1) <= SignedLittleEndian(bs) < 128 * Pow(256, |bs| - 1)
  {
    var n := |bs|;
    var top := Pow(256, n - 1);
    UnsignedLast(bs);
    var low := Unsigned(bs[..n - 1]);
    var last := bs[n - 1] as int;
    assert 0 <= low < top;
    assert Pow(256, n) == 256 * top;
    if last >= 128 {
      MulMono(128, last, top);
      MulMono(last, 255, top);
    } else {
      MulMono(last, 127, top);
      MulMono(0, last, top);
    }
  }

  lemma MulMono(a: int, b: int, c: int)
    requires a <= b && c >= 0
    ensures a * c <= b * c
  {
    assert b * c - a * c == (b - a) * c;
  }

  /** Bytes that are all 0xFF read as -1. */
  lemma {:induction false} AllOnesIsMinusOne(bs: seq<byte>)
    requires |bs| > 0 && forall i :: 0 <= i < |bs| ==> bs[i] == 255
    ensures SignedLittleEndian(bs) == -1
  {
    UnsignedAllOnes(bs);
  }

  lemma {:induction false} UnsignedAllOnes(bs: seq<byte>)
    requires forall i :: 0 <= i < |bs| ==> bs[i] == 255
    ensures Unsigned(bs) == Pow(256, |bs|) - 1
  {
    if bs != [] {
      UnsignedAllOnes(bs[1..]);
    }
  }
}
