/**
 Bitwise and on 64-bit values written as numbers, and the two idioms src/arena.c builds on: the power-of-two
 test p & (p - 1) and rounding with & ~(p - 1).
 */
module Bits {
  import opened Bytes

  const SIZE_MAX: nat := 0xFFFF_FFFF_FFFF_FFFF

  /** x & y */
  function And(x: nat, y: nat): (z: nat) {
    if x == 0 || y == 0 then 0 else (if x % 2 == 1 && y % 2 == 1 then 1 else 0) + 2 * And(x / 2, y / 2)
  }

  /** ~x */
  function Not(x: nat): (y: nat)
    requires x <= SIZE_MAX
  {
    SIZE_MAX - x
  }

  ghost predicate PowerOfTwo(p: nat) {
    exists k: nat :: p == Pow(2, k)
  }

  lemma {:induction false} AndSelf(x: nat)
    ensures And(x, x) == x
  {
    if x > 0 { AndSelf(x / 2); }
  }

  lemma HalfOfPower(p: nat)
    requires p > 0
    ensures PowerOfTwo(2 * p) <==> PowerOfTwo(p)
  {
    if PowerOfTwo(p) {
      var k: nat :| p == Pow(2, k);
      assert 2 * p == Pow(2, k + 1);
    }
    if PowerOfTwo(2 * p) {
      var k: nat :| 2 * p == Pow(2, k);
      assert k > 0 by { assert Pow(2, 0) == 1; }
      assert p == Pow(2, k - 1);
    }
  }

  lemma OddPower(p: nat)
    requires p % 2 == 1
    ensures PowerOfTwo(p) <==> p == 1
  {
    if PowerOfTwo(p) {
      var k: nat :| p == Pow(2, k);
      PowStep(k);
    }
    assert Pow(2, 0) == 1;
  }

  lemma PowStep(k: nat)
    ensures Pow(2, k) == if k == 0 then 1 else 2 * Pow(2, k - 1)
  {
  }

  /** p & (p - 1) is zero exactly for the powers of two. */
  lemma {:induction false} PowerTest(p: nat)
    requires p > 0
    ensures And(p, p - 1) == 0 <==> PowerOfTwo(p)
  {
    if p % 2 == 1 {
      OddPower(p);
      AndSelf(p / 2);
      assert (p - 1) / 2 == p / 2;
    } else {
      PowerTest(p / 2);
      HalfOfPower(p / 2);
      assert (p - 1) / 2 == p / 2 - 1;
    }
  }

  lemma {:induction false} PowPositive(n: nat)
    ensures Pow(2, n) > 0
  {
    if n > 0 { PowPositive(n - 1); }
  }

  lemma {:induction false} PowMonotone(k: nat, n: nat)
    requires k <= n
    ensures Pow(2, k) <= Pow(2, n)
  {
    PowPositive(n);
    if k < n {
      PowMonotone(k, n - 1);
      PowPositive(n - 1);
    }
  }

  lemma {:induction false} AllOnes(x: nat, n: nat)
    requires x < Pow(2, n)
    ensures Pow(2, n) > 0 && And(x, Pow(2, n) - 1) == x
  {
    PowPositive(n);
    if n > 0 {
      AllOnes(x / 2, n - 1);
      AndStep(x, Pow(2, n) - 1);
    }
  }

  /** With all ones from bit k up to bit n the low k bits are cleared. */
  lemma {:induction false} MaskClears(x: nat, n: nat, k: nat)
    requires k <= n && x < Pow(2, n)
    ensures Pow(2, k) > 0 && Pow(2, k) <= Pow(2, n)
    ensures And(x, Pow(2, n) - Pow(2, k)) == x - x % Pow(2, k)
  {
    hide And;
    hide Pow;
    PowPositive(k);
    PowMonotone(k, n);
    PowStep(k);
    PowStep(n);
    if k == 0 {
      AllOnes(x, n);
    } else {
      MaskClears(x / 2, n - 1, k - 1);
      var p, big := Pow(2, k - 1), Pow(2, n - 1);
      EvenMask(x, big - p);
      ModHalf(x, p);
      assert Pow(2, n) - Pow(2, k) == 2 * (big - p);
    }
  }

  lemma EvenMask(x: nat, y: nat)
    ensures And(x, 2 * y) == 2 * And(x / 2, y)
  {
    hide And;
    AndStep(x, 2 * y);
    assert 2 * y / 2 == y;
  }

  lemma AndStep(x: nat, y: nat)
    ensures And(x, y) == (if x % 2 == 1 && y % 2 == 1 then 1 else 0) + 2 * And(x / 2, y / 2)
  {
  }

  lemma ModHalf(x: nat, p: nat)
    requires p > 0
    ensures x % (2 * p) == 2 * ((x / 2) % p) + x % 2
  {
    var q, r := (x / 2) / p, (x / 2) % p;
    assert x / 2 == q * p + r;
    assert x == q * (2 * p) + (2 * r + x % 2) by { assert x == 2 * (x / 2) + x % 2; }
    ModUnique(x, 2 * p, q, 2 * r + x % 2);
  }

  lemma {:induction false} MulOrder(a: nat, b: nat, p: nat)
    ensures a < b ==> a * p + p <= b * p
    decreases b
  {
    if a < b {
      MulOrder(a, b - 1, p);
      assert b * p == (b - 1) * p + p;
    }
  }

  lemma ModUnique(x: nat, p: nat, q: nat, r: nat)
    requires p > 0 && r < p && x == q * p + r
    ensures x % p == r
  {
    var q', r' := x / p, x % p;
    assert x == q' * p + r';
    MulOrder(q, q', p);
    MulOrder(q', q, p);
  }

  lemma {:induction false} PowAdds(a: nat, b: nat)
    ensures Pow(2, a + b) == Pow(2, a) * Pow(2, b)
  {
    if a > 0 { PowAdds(a - 1, b); }
  }

  lemma PowFour()
    ensures Pow(2, 4) == 16
  {
  }

  lemma Powers()
    ensures Pow(2, 4) == 16 && Pow(2, 64) == SIZE_MAX + 1
  {
    PowFour();
    hide Pow;
    PowAdds(4, 4);
    PowAdds(8, 8);
    PowAdds(16, 16);
    PowAdds(32, 32);
  }

  /** The exponent of a 64-bit power of two is below 64. */
  lemma Exponent(p: nat, k: nat)
    requires p == Pow(2, k) && p <= SIZE_MAX
    ensures k < 64
  {
    Powers();
    if k >= 64 { PowMonotone(64, k); }
  }

  /** x & (2^k - 1) keeps the low k bits. */
  lemma {:induction false} LowBits(x: nat, k: nat)
    ensures Pow(2, k) > 0 && And(x, Pow(2, k) - 1) == x % Pow(2, k)
  {
    PowPositive(k);
    PowStep(k);
    if k > 0 {
      hide And;
      hide Pow;
      var p := Pow(2, k - 1);
      LowBits(x / 2, k - 1);
      AndStep(x, 2 * p - 1);
      ModHalf(x, p);
      assert (2 * p - 1) / 2 == p - 1 && (2 * p - 1) % 2 == 1;
    }
  }

  /** The multiples of p. */
  ghost predicate Multiple(m: nat, p: nat)
    requires p > 0
  {
    m % p == 0
  }

  /** x & ~(p - 1) rounds down to a multiple of p. */
  lemma MaskRoundsDown(x: nat, p: nat)
    requires x <= SIZE_MAX && 0 < p <= SIZE_MAX && PowerOfTwo(p)
    ensures And(x, Not(p - 1)) == x - x % p
  {
    var k: nat :| p == Pow(2, k);
    Exponent(p, k);
    Powers();
    MaskClears(x, 64, k);
  }

  /** The least multiple of p that is at least x. */
  ghost predicate LeastMultiple(m: nat, x: nat, p: nat)
    requires p > 0
  {
    Multiple(m, p) && x <= m && forall n: nat :: Multiple(n, p) && x <= n ==> m <= n
  }

  lemma RoundUp(x: nat, p: nat)
    requires p > 0
    ensures var y := x + p - 1; LeastMultiple(y - y % p, x, p) && y - y % p < x + p
  {
    var y := x + p - 1;
    var m := y - y % p;
    assert m == (y / p) * p;
    MultipleOf(y / p, p);
    forall n: nat | Multiple(n, p) && x <= n ensures m <= n {
      NoneBetween(n, y, p);
    }
  }

  lemma NoneBetween(n: nat, y: nat, p: nat)
    requires p > 0 && Multiple(n, p) && y < n + p
    ensures y - y % p <= n
  {
    var q, r := n / p, y / p;
    assert n == q * p && y - y % p == r * p;
    MulOrder(q, r, p);
    MulOrder(r, q, p);
  }

  lemma MultipleOf(q: nat, p: nat)
    requires p > 0
    ensures Multiple(q * p, p)
  {
    ModUnique(q * p, p, q, 0);
  }

  lemma PowOrder(k: nat, n: nat)
    ensures k > n ==> Pow(2, k) > Pow(2, n)
  {
    if k > n {
      PowMonotone(n + 1, k);
      PowPositive(n);
    }
  }

  /** 2^64 is a multiple of every 64-bit power of two. */
  lemma PowerDivides(p: nat, big: nat, n: nat)
    requires PowerOfTwo(p) && 0 < p <= big && big == Pow(2, n)
    ensures Multiple(big, p)
  {
    var k: nat :| p == Pow(2, k);
    PowOrder(k, n);
    PowAdds(n - k, k);
    MultipleOf(Pow(2, n - k), p);
  }
}
