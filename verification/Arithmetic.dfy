/**
  Facts about products, quotients and powers of two that several modules rely on.
 */
module Arithmetic {
  import opened Uefi

  lemma MulSign(k: int, d: nat)
    ensures k >= 1 ==> k * d >= d
    ensures k <= -1 ==> k * d <= -(d as int)
  {
    if k >= 1 {
      assert (k - 1) * d >= 0;
    } else if k <= -1 {
      assert (-1 - k) * d >= 0;
    }
  }

  lemma DivisionIsUnique(x: nat, d: nat, q: nat, r: nat)
    requires d > 0 && r < d && x == d * q + r
    ensures x / d == q && x % d == r
  {
    var k := x / d - q;
    assert k * d == r - x % d;
    MulSign(k, d);
  }

  lemma QuotientBounds(x: nat, d: nat)
    requires d > 0
    ensures 0 <= x / d <= x && 0 <= x % d < d && x == d * (x / d) + x % d
  {
    MulSign(d, x / d);
  }

  lemma MultipleModulo(q: nat, d: nat)
    requires d > 0
    ensures (q * d) % d == 0
  {
    DivisionIsUnique(q * d, d, q, 0);
  }

  lemma MulMonotonic(a: nat, b: nat, d: nat)
    requires a <= b
    ensures a * d <= b * d && d * a <= d * b
  {
    var k := b - a;
    assert b * d == a * d + k * d;
    MulSign(k, d);
  }

  /** One more of the smaller still fits. */
  lemma OneMoreFits(a: nat, b: nat, d: nat)
    requires a < b
    ensures a * d + d <= b * d && d * a + d <= d * b
  {
    assert (a + 1) * d == a * d + d;
    MulMonotonic(a + 1, b, d);
  }

  /** A quotient is told by where the dividend lies. */
  lemma QuotientTells(x: nat, d: nat, b: nat)
    requires d > 0
    ensures x >= b * d ==> x / d >= b
    ensures x < b * d ==> x / d < b
  {
    var q := x / d;
    assert x == q * d + x % d;
    if q < b {
      OneMoreFits(q, b, d);
    } else {
      MulMonotonic(b, q, d);
    }
  }

  lemma {:induction false} Pow2Adds(m: nat, n: nat)
    ensures Pow2(m + n) == Pow2(m) * Pow2(n)
  {
    if m > 0 {
      Pow2Adds(m - 1, n);
      assert Pow2(m) * Pow2(n) == 2 * (Pow2(m - 1) * Pow2(n));
    }
  }

  lemma Pow2Of16()
    ensures Pow2(4) == 16 && Pow2(12) == 0x1000 && Pow2(16) == 0x1_0000
  {
    assert Pow2(1) == 2;
    assert Pow2(2) == 4;
    assert Pow2(3) == 8;
    assert Pow2(4) == 16;
    Pow2Adds(4, 4);
    Pow2Adds(8, 4);
    Pow2Adds(12, 4);
  }

  lemma Pow2Of64()
    ensures Pow2(32) == TWO_32 && Pow2(64) == TWO_64
  {
    Pow2Of16();
    hide Pow2;
    Pow2Adds(16, 16);
    Pow2Adds(32, 32);
  }

  lemma ProductFits(a: nat, b: nat, limit: nat)
    requires b > 0 && a <= limit / b
    ensures a * b <= limit
  {
    var q := limit / b;
    assert limit == q * b + limit % b;
    MulMonotonic(a, q, b);
  }
}
