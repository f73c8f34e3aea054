/** Facts about powers of two, division and remainder that the other modules share. */
module Arithmetic {

  const TWO_32: nat := 0x1_0000_0000
  const TWO_64: nat := 0x1_0000_0000_0000_0000

  function Pow2(k: nat): (r: nat)
    ensures r >= 1
  {
    if k == 0 then 1 else 2 * Pow2(k - 1)
  }

  lemma {:induction false} Pow2Sum(a: nat, b: nat)
    ensures Pow2(a + b) == Pow2(a) * Pow2(b)
  {
    if a != 0 {
      Pow2Sum(a - 1, b);
      assert Pow2(a + b) == 2 * Pow2(a - 1 + b);
      assert 2 * (Pow2(a - 1) * Pow2(b)) == (2 * Pow2(a - 1)) * Pow2(b);
    }
  }

  lemma {:induction false} Pow2Monotone(a: nat, b: nat)
    requires a <= b
    ensures Pow2(a) <= Pow2(b)
  {
    if a < b {
      Pow2Monotone(a, b - 1);
    }
  }

  lemma Pow2Is32()
    ensures Pow2(32) == TWO_32
  {
    Pow2Sum(16, 16);
    assert Pow2(16) == 65536 by {
      Pow2Sum(8, 8);
      assert Pow2(4) == 16;
      assert Pow2(8) == 256;
    }
  }

  /** Quotient and remainder are the only ones that fit. */
  lemma DivModUnique(a: int, d: int, q: int, r: int)
    requires d > 0 && 0 <= r < d && a == q * d + r
    ensures a / d == q && a % d == r
  {
    var q', r' := a / d, a % d;
    assert a == q' * d + r';
    assert (q' + 1) * d == q' * d + d;
    assert (q + 1) * d == q * d + d;
    if q' < q {
      MulLe(q' + 1, q, d);
    } else if q < q' {
      MulLe(q + 1, q', d);
    }
  }

  lemma MulLe(a: int, b: int, c: int)
    requires a <= b && 0 <= c
    ensures a * c <= b * c
  {
    assert 0 <= (b - a) * c;
  }

  lemma QuotientNotNegative(x: nat, d: nat)
    requires d > 0
    ensures x / d >= 0
  {
    if x / d <= -1 {
      MulLe(x / d, -1, d);
    }
  }

  /** Adding a multiple of the divisor does not change the remainder. */
  lemma ModAddMultiple(a: int, k: int, d: int)
    requires d > 0
    ensures (a + k * d) % d == a % d
  {
    var q, r := a / d, a % d;
    assert a + k * d == (q + k) * d + r;
    DivModUnique(a + k * d, d, q + k, r);
  }

  /** A remainder by a multiple keeps the remainder by the divisor. */
  lemma ModOfMod(a: int, c: int, d: int)
    requires d > 0 && c > 0
    ensures (a % (c * d)) % d == a % d
  {
    assert c * d > 0;
    var q, r := a / (c * d), a % (c * d);
    assert a == q * (c * d) + r;
    assert q * (c * d) == (q * c) * d;
    ModAddMultiple(r, q * c, d);
  }

  lemma DivBounds(a: nat, d: nat, lo: nat, hi: nat)
    requires d > 0 && lo * d <= a < hi * d
    ensures lo <= a / d < hi
  {
    var q := a / d;
    assert a == q * d + a % d;
    if q < lo {
      MulLe(q + 1, lo, d);
    } else if hi <= q {
      MulLe(hi, q, d);
    }
  }

  lemma DivMonotone(a: nat, b: nat, d: nat)
    requires a <= b && d > 0
    ensures a / d <= b / d
  {
    var q, r := a / d, b / d;
    assert a == q * d + a % d && b == r * d + b % d;
    if r < q {
      MulLe(r + 1, q, d);
    }
  }

  function Max(a: int, b: int): int {
    if a < b then b else a
  }

  /** floor(log2(x)). */
  function Log2(x: nat): (l: nat)
    requires x > 0
    ensures Pow2(l) <= x < 2 * Pow2(l)
  {
    if x == 1 then 0 else 1 + Log2(x / 2)
  }

  lemma {:induction false} Log2Unique(x: nat, l: nat)
    requires Pow2(l) <= x < 2 * Pow2(l)
    ensures x > 0 && Log2(x) == l
  {
    if l != 0 {
      Log2Unique(x / 2, l - 1);
    }
  }

  lemma {:induction false} Log2Monotone(x: nat, y: nat)
    requires 0 < x <= y
    ensures Log2(x) <= Log2(y)
  {
    if y > 1 && x > 1 {
      Log2Monotone(x / 2, y / 2);
    }
  }
}
