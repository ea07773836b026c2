/**
 * The bit operations on non-negative Java `int`s that the view enumeration
 * uses: single bits, `Integer.bitCount` and `Integer.lowestOneBit`.
 */
module Bits {

  /** `2` to the power `i`. */
  function Pow2(i: nat): (r: nat)
    ensures r > 0
  {
    if i == 0 then 1 else 2 * Pow2(i - 1)
  }

  /** `x >>> i`. */
  function Shr(x: nat, i: nat): nat
  {
    if i == 0 then x else Shr(x, i - 1) / 2
  }

  /** Bit `i` of `x`: `((1L << i) & x) > 0` as 1 or 0. */
  function Bit(x: nat, i: nat): nat
  {
    Shr(x, i) % 2
  }

  /** `Integer.bitCount(x)`. */
  function PopCount(x: nat): nat
  {
    if x == 0 then 0 else x % 2 + PopCount(x / 2)
  }

  /** `Integer.lowestOneBit(x)`: the value of the lowest set bit, 0 for 0. */
  function LowestOneBit(x: nat): nat
  {
    if x == 0 then 0 else if x % 2 == 1 then 1 else 2 * LowestOneBit(x / 2)
  }

  /** Shifting the half by `i` is shifting the whole by `i + 1`. */
  lemma {:induction false} ShrHalf(x: nat, i: nat)
    ensures Shr(x / 2, i) == Shr(x, i + 1)
  {
    if i > 0 {
      ShrHalf(x, i - 1);
    }
  }

  /** A non-zero shifted value means `x` has a set bit at `i` or above. */
  lemma {:induction false} ShrPositive(x: nat, i: nat)
    requires Shr(x, i) > 0
    ensures x >= Pow2(i)
  {
    if i > 0 {
      assert Shr(x, i - 1) >= 2;
      ShrAtLeast(x, i - 1, 2);
    }
  }

  lemma {:induction false} ShrAtLeast(x: nat, i: nat, m: nat)
    requires Shr(x, i) >= m
    ensures x >= m * Pow2(i)
  {
    if i > 0 {
      assert Shr(x, i - 1) >= 2 * m;
      ShrAtLeast(x, i - 1, 2 * m);
      assert 2 * m * Pow2(i - 1) == m * Pow2(i);
    }
  }

  /** Only zero has no set bits. */
  lemma {:induction false} PopCountZero(x: nat)
    ensures PopCount(x) == 0 <==> x == 0
  {
    if x > 0 && x % 2 == 0 {
      PopCountZero(x / 2);
    }
  }

  /** The lowest set bit of a positive number is a positive power of two. */
  lemma {:induction false} LowestOneBitPositive(x: nat)
    requires x > 0
    ensures LowestOneBit(x) > 0
  {
    if x % 2 == 0 {
      LowestOneBitPositive(x / 2);
    }
  }

  /**
   * Adding less than the lowest set bit only sets bits below it: every set
   * bit of `b` is still set in `b + k`, so `b + k` denotes a superset of `b`.
   */
  lemma {:induction false} AddBelowLowestKeepsBits(b: nat, k: nat, i: nat)
    requires k < LowestOneBit(b) && Bit(b, i) == 1
    ensures Bit(b + k, i) == 1
    decreases b
  {
    if b % 2 == 1 {
      assert k == 0;
    } else {
      assert b > 0;
      var c := b / 2;
      assert LowestOneBit(b) == 2 * LowestOneBit(c);
      if i > 0 {
        assert (b + k) / 2 == c + k / 2;
        ShrHalf(b, i - 1);
        ShrHalf(b + k, i - 1);
        assert Bit(c, i - 1) == 1;
        AddBelowLowestKeepsBits(c, k / 2, i - 1);
      }
    }
  }

  /** Powers of two multiply by adding exponents. */
  lemma {:induction false} Pow2Add(i: nat, j: nat)
    ensures Pow2(i + j) == Pow2(i) * Pow2(j)
  {
    if i > 0 {
      Pow2Add(i - 1, j);
    }
  }

  /** `1 << 31` before it is wrapped into an `int`. */
  lemma Pow2ThirtyOne()
    ensures Pow2(31) == 0x8000_0000
  {
    assert Pow2(2) == 4;
    assert Pow2(4) == 16 by { Pow2Add(2, 2); }
    assert Pow2(8) == 256 by { Pow2Add(4, 4); }
    assert Pow2(16) == 0x1_0000 by { Pow2Add(8, 8); }
    assert Pow2(15) == 0x8000 by { Pow2Add(8, 4); Pow2Add(12, 2); Pow2Add(14, 1); }
    Pow2Add(16, 15);
  }

  /** A number below `2^n` has no set bit at `n` or above. */
  lemma {:induction false} ShrBelowPow2(x: nat, n: nat)
    requires x < Pow2(n)
    ensures Shr(x, n) == 0
  {
    if n > 0 {
      ShrBelowPow2(x / 2, n - 1);
      ShrHalf(x, n - 1);
    }
  }
}
