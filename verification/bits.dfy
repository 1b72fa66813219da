/**
 * Kotlin's bitwise `and` and arithmetic `shr` on two's-complement integers,
 * written arithmetically so that the masks in Bundler.kt can be reasoned about.
 */
module Bits {

  function Pow2(n: nat): (r: nat)
    ensures r >= 1
  {
    if n == 0 then 1 else 2 * Pow2(n - 1)
  }

  /** The powers behind the masks of Bundler.kt. */
  lemma Pow2Values()
    ensures Pow2(7) == 0x80 && Pow2(8) == 0x100 && Pow2(13) == 0x2000
    ensures Pow2(16) == 0x1_0000 && Pow2(32) == 0x1_0000_0000
  {
    assert Pow2(8) == 0x100;
    assert Pow2(16) == 0x1_0000;
    assert Pow2(24) == 0x100_0000;
  }

  /**
   * `a and mask` for a two's-complement integer `a` (of any sign) and a
   * non-negative mask. Euclidean `/ 2` and `% 2` are the arithmetic shift
   * and the low bit of a two's-complement number, so the recursion walks
   * both operands bit by bit, from the least significant bit up.
   */
  function BitAnd(a: int, mask: nat): (r: nat)
    ensures r <= mask
    decreases mask
  {
    if mask == 0 then 0
    else 2 * BitAnd(a / 2, mask / 2) + (if mask % 2 == 1 then a % 2 else 0)
  }

  /** Kotlin `a shr n`: arithmetic shift right, i.e. floor division by 2^n. */
  function ShiftRight(a: int, n: nat): int
  {
    a / Pow2(n)
  }

  /** Euclidean division is unique. */
  lemma DivModUnique(a: int, d: int, q: int, m: int)
    requires d > 0 && a == d * q + m && 0 <= m < d
    ensures a / d == q && a % d == m
  {
    var q', m' := a / d, a % d;
    var x := q' - q;
    assert d * x == d * q' - d * q;
    assert d * x == m - m';
  }

  /** `x` is a power of two: 1, 2, 4, ... */
  predicate IsPow2(x: nat)
  {
    x == 1 || (x > 1 && x % 2 == 0 && IsPow2(x / 2))
  }

  lemma {:induction false} Pow2IsPow2(n: nat)
    ensures IsPow2(Pow2(n))
  {
    if n > 0 {
      Pow2IsPow2(n - 1);
      assert Pow2(n) / 2 == Pow2(n - 1);
    }
  }

  /** Taking the low bit off, then the rest modulo p, gives `a` modulo 2p. */
  lemma ModDouble(a: int, p: nat)
    requires p > 0
    ensures a % (2 * p) == 2 * ((a / 2) % p) + a % 2
  {
    var q, b := a / 2, a % 2;
    var t, u := q / p, q % p;
    assert a == 2 * q + b;
    assert q == p * t + u;
    assert a == (2 * p) * t + (2 * u + b);
    DivModUnique(a, 2 * p, t, 2 * u + b);
  }

  lemma AndEvenMask(a: int, mask: nat)
    requires mask > 0 && mask % 2 == 0
    ensures BitAnd(a, mask) == 2 * BitAnd(a / 2, mask / 2)
  {
  }

  /** A mask of the low bits (0xFF, 0x1FFF, 0xFFFF, ...) reduces modulo its successor. */
  lemma {:induction false} AndLowMask(a: int, p: nat)
    requires IsPow2(p)
    ensures BitAnd(a, p - 1) == a % p
    decreases p
  {
    if p > 1 {
      assert (p - 1) / 2 == p / 2 - 1 && (p - 1) % 2 == 1;
      AndLowMask(a / 2, p / 2);
      ModDouble(a, p / 2);
    }
  }

  /** A mask of the bits between two powers (0xFF80 is 0x1_0000 - 0x80) keeps exactly those bits. */
  lemma {:induction false} AndRangeMask(a: int, hi: nat, lo: nat)
    requires IsPow2(hi) && IsPow2(lo) && lo <= hi
    ensures BitAnd(a, hi - lo) == a % hi - a % lo
    decreases lo
  {
    if lo == 1 {
      AndLowMask(a, hi);
    } else if lo < hi {
      assert (hi - lo) / 2 == hi / 2 - lo / 2 && (hi - lo) % 2 == 0;
      AndEvenMask(a, hi - lo);
      AndRangeMask(a / 2, hi / 2, lo / 2);
      ModDouble(a, hi / 2);
      ModDouble(a, lo / 2);
    }
  }

  /** The masks that Bundler.kt applies, each reduced to plain arithmetic. */
  lemma MaskFF(a: int)
    ensures BitAnd(a, 0xFF) == a % 0x100
  {
    Pow2Values();
    Pow2IsPow2(8);
    AndLowMask(a, 0x100);
  }

  lemma MaskFFFF(a: int)
    ensures BitAnd(a, 0xFFFF) == a % 0x1_0000
  {
    Pow2Values();
    Pow2IsPow2(16);
    AndLowMask(a, 0x1_0000);
  }

  lemma MaskFFFFFFFF(a: int)
    ensures BitAnd(a, 0xFFFF_FFFF) == a % 0x1_0000_0000
  {
    Pow2Values();
    Pow2IsPow2(32);
    AndLowMask(a, 0x1_0000_0000);
  }

  lemma Mask1FFF(a: int)
    ensures BitAnd(a, 0x1FFF) == a % 0x2000
  {
    Pow2Values();
    Pow2IsPow2(13);
    AndLowMask(a, 0x2000);
  }

  lemma Mask7F(a: int)
    ensures BitAnd(a, 0x7F) == a % 0x80
  {
    Pow2Values();
    Pow2IsPow2(7);
    AndLowMask(a, 0x80);
  }

  lemma MaskFF80(a: int)
    ensures BitAnd(a, 0xFF80) == a % 0x1_0000 - a % 0x80
  {
    Pow2Values();
    Pow2IsPow2(16);
    Pow2IsPow2(7);
    AndRangeMask(a, 0x1_0000, 0x80);
  }
}
