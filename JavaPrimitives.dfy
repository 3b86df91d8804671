/** Java's fixed-width integer types, as the cache statistics use them:
    `long` as the signed 64-bit range of `int`, `int` as the signed 32-bit
    range, and the wrap-around Java applies when an `int` computation leaves
    that range. */
module JavaPrimitives {

  const LONG_MAX: int := 0x7FFF_FFFF_FFFF_FFFF

  /** A Java `long`. */
  newtype Long = x: int | -0x8000_0000_0000_0000 <= x <= 0x7FFF_FFFF_FFFF_FFFF

  /** A Java `int`. */
  newtype Int32 = x: int | -0x8000_0000 <= x <= 0x7FFF_FFFF

  /** Two's-complement wrap-around to 32 bits: the one `int` that agrees with
      `x` modulo 2^32, which is what Java's `int` arithmetic and its `(int)`
      cast produce. */
  function Wrap32(x: int): (r: Int32)
    ensures (r as int - x) % 0x1_0000_0000 == 0
  {
    var m := x % 0x1_0000_0000;
    if m < 0x8000_0000 then m as Int32 else (m - 0x1_0000_0000) as Int32
  }

  /** Bitwise exclusive or of two non-negative numbers, bit by bit from the
      least significant one: Java's `^` on the unsigned bit patterns. */
  function Xor(a: nat, b: nat): nat
  {
    if a == 0 && b == 0 then 0
    else 2 * Xor(a / 2, b / 2) + (if a % 2 == b % 2 then 0 else 1)
  }

  /** Xor-ing with a zero pattern changes nothing. */
  lemma {:induction false} XorZero(a: nat)
    ensures Xor(a, 0) == a
  {
    if a != 0 {
      XorZero(a / 2);
    }
  }

  /** 2^k. */
  function Pow2(k: nat): (r: nat)
    ensures r > 0
  {
    if k == 0 then 1 else 2 * Pow2(k - 1)
  }

  /** 2^32, the modulus of Java `int` arithmetic. */
  lemma Pow2Of32()
    ensures Pow2(32) == 0x1_0000_0000
  {
    assert Pow2(8) == 0x100;
    assert Pow2(16) == 0x1_0000;
    assert Pow2(24) == 0x100_0000;
  }

  /** Keeping the low k + 1 bits of `2 * x + bit` keeps `bit` and the low k
      bits of `x`. */
  lemma DoubleMod(x: nat, bit: nat, p: nat)
    requires p > 0 && bit < 2
    ensures (2 * x + bit) % (2 * p) == 2 * (x % p) + bit
  {
    var q, r := x / p, x % p;
    assert x == p * q + r;
    assert (2 * p) * q == 2 * (p * q);
    ModOfDecomposition(2 * x + bit, 2 * p, q, 2 * r + bit);
  }

  /** Splitting off the lowest bit commutes with keeping the low k + 1 bits. */
  lemma LowBitsHalve(a: nat, k: nat)
    ensures (a % Pow2(k + 1)) / 2 == (a / 2) % Pow2(k)
    ensures (a % Pow2(k + 1)) % 2 == a % 2
  {
    DoubleMod(a / 2, a % 2, Pow2(k));
  }

  /** The remainder is determined by any quotient-remainder decomposition. */
  lemma ModOfDecomposition(a: nat, d: nat, q: nat, r: nat)
    requires 0 <= r < d && a == d * q + r
    ensures a % d == r
  {
    var q0, r0 := a / d, a % d;
    assert a == d * q0 + r0;
    if q0 > q {
      var n := q0 - q;
      assert d * q0 == d * q + d * n;
      MulAtLeast(d, n);
      assert false;
    } else if q0 < q {
      var n := q - q0;
      assert d * q == d * q0 + d * n;
      MulAtLeast(d, n);
      assert false;
    }
  }

  /** A positive multiple of d is at least d. */
  lemma MulAtLeast(d: nat, n: nat)
    requires n >= 1
    ensures d * n >= d
  {
  }

  /** The low k bits of an exclusive or depend only on the low k bits of its
      operands. */
  lemma {:induction false} XorLowBits(a: nat, b: nat, k: nat)
    ensures Xor(a, b) % Pow2(k) == Xor(a % Pow2(k), b % Pow2(k))
  {
    if k == 0 {
    } else if a == 0 && b == 0 {
    } else {
      var p := Pow2(k - 1);
      var a', b' := a % Pow2(k), b % Pow2(k);
      LowBitsHalve(a, k - 1);
      LowBitsHalve(b, k - 1);
      XorLowBits(a / 2, b / 2, k - 1);
      var bit := if a % 2 == b % 2 then 0 else 1;
      var x := Xor(a / 2, b / 2);
      assert Xor(a, b) == 2 * x + bit;
      DoubleMod(x, bit, p);
      if a' == 0 && b' == 0 {
        assert a % 2 == 0 && b % 2 == 0 && bit == 0;
        assert (a / 2) % p == 0 && (b / 2) % p == 0;
        assert Xor(0, 0) == 0;
      } else {
        assert Xor(a', b') == 2 * Xor(a' / 2, b' / 2) + bit;
      }
    }
  }

  /** Exclusive or with k one-bits complements a k-bit number. */
  lemma {:induction false} XorAllOnes(a: nat, k: nat)
    requires a < Pow2(k)
    ensures Xor(a, Pow2(k) - 1) == Pow2(k) - 1 - a
  {
    if k != 0 {
      XorAllOnes(a / 2, k - 1);
      assert (Pow2(k) - 1) / 2 == Pow2(k - 1) - 1 && (Pow2(k) - 1) % 2 == 1;
    }
  }

  /** `Wrap32` leaves a value that already fits an `int` unchanged. */
  lemma Wrap32OfInt32(x: Int32)
    ensures Wrap32(x as int) == x
  {
  }
}
