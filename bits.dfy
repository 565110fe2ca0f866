/**
 * Integer bit operations with the meaning Python gives them on its unbounded
 * ints, as far as the TMP102 codec uses them, and the 16-bit two's-complement
 * reading that the register format is meant to have.
 */
module Bits {

  /** `2**k`. */
  function Pow2(k: nat): (p: nat)
    ensures p >= 1
  {
    if k == 0 then 1 else 2 * Pow2(k - 1)
  }

  /** Python's `x | y` on non-negative ints, defined one bit at a time. */
  function Or(x: nat, y: nat): nat
    decreases x + y
  {
    if x == 0 then y
    else if y == 0 then x
    else 2 * Or(x / 2, y / 2) + (if x % 2 == 1 || y % 2 == 1 then 1 else 0)
  }

  /** Python's `x << k`. */
  function Shl(x: int, k: nat): int
  {
    x * Pow2(k)
  }

  /** Python's `x >> k`, which rounds toward negative infinity. */
  function Shr(x: int, k: nat): (r: int)
    ensures r * Pow2(k) <= x < (r + 1) * Pow2(k)
  {
    x / Pow2(k)
  }

  /**
   * Python's `x & (2**k - 1)`: the low `k` bits of the two's-complement form,
   * which for every int, negative ones included, is the non-negative remainder.
   */
  function LowBits(x: int, k: nat): (r: nat)
    ensures r < Pow2(k)
    ensures Shr(x, k) * Pow2(k) + r == x
  {
    x % Pow2(k)
  }

  /**
   * OR-ing a value shifted left by `k` with a value of at most `k` bits puts
   * them side by side: the result is their sum.
   */
  lemma {:induction false} OrDisjoint(a: nat, k: nat, y: nat)
    requires y < Pow2(k)
    ensures Or(a * Pow2(k), y) == a * Pow2(k) + y
    ensures Or(y, a * Pow2(k)) == a * Pow2(k) + y
  {
    if k == 0 {
      assert y == 0;
    } else if a == 0 || y == 0 {
    } else {
      var x := a * Pow2(k);
      assert x == 2 * (a * Pow2(k - 1));
      assert x / 2 == a * Pow2(k - 1) && x % 2 == 0;
      OrDisjoint(a, k - 1, y / 2);
    }
  }

  /**
   * The `k`-bit value `m` as a byte, built one bit at a time from the top.
   * It denotes `m as bv8`; the bitwise construction is there only because the
   * verifier reasons about it far more cheaply. Nothing in the driver
   * corresponds to it.
   */
  function ByteOf(m: nat, k: nat): (b: bv8)
    requires k <= 8 && m < Pow2(k)
    ensures b as int == m
  {
    if k == 0 then 0
    else
      var high := ByteOf(m / 2, k - 1);
      assert high as int < 128 by {
        assert Pow2(k - 1) <= Pow2(7) by { Pow2Monotone(k - 1, 7); }
      }
      (high << 1) | (if m % 2 == 1 then 1 else 0)
  }

  lemma {:induction false} Pow2Monotone(j: nat, k: nat)
    requires j <= k
    ensures Pow2(j) <= Pow2(k)
    decreases k
  {
    if j < k {
      Pow2Monotone(j, k - 1);
    }
  }

  /** A byte is determined by its value (a proof step, not part of the driver). */
  lemma ByteInjective(b: bv8, c: bv8)
    requires b as int == c as int
    ensures b == c
  {
  }

  /** The byte a bus transfer carries for a Python int: its low 8 bits, `(v % 256) as bv8`. */
  function WireByte(v: int): (b: bv8)
    ensures b as int == v % 256
    ensures 0 <= v < 256 ==> b as int == v
  {
    assert Pow2(8) == 256;
    ByteOf(v % 256, 8)
  }

  /** Reference two's-complement reading of a `width`-bit field. */
  function SignExtend(v: int, width: nat): int
    requires width >= 1
  {
    if v < Pow2(width - 1) then v else v - Pow2(width)
  }

  /** A 16-bit pattern read as a two's-complement integer. */
  function Signed16(p: int): (s: int)
    requires 0 <= p < 0x10000
    ensures -0x8000 <= s < 0x8000
    ensures (p - s) % 0x10000 == 0
  {
    if p < 0x8000 then p else p - 0x10000
  }
}
