/**
 * 64-bit unsigned division built from 32-bit steps (shared/div64.c) and by shifting and
 * subtracting (user/tests/lib/math.c). The inline assembly is modelled by what it computes:
 * bsr, the double shifts and the 64-by-32 divide instruction with its fault.
 */
module Division {
  import opened Arithmetic

  /** The divide instruction faults on a zero divisor or a quotient of more than 32 bits. */
  datatype Outcome = Fault | Divided(quotient: nat, remainder: nat)

  function Divl(hi: nat, lo: nat, d: nat): Outcome {
    if d == 0 || hi >= d then Fault
    else Divided((hi * TWO_32 + lo) / d, (hi * TWO_32 + lo) % d)
  }

  /** The double-precision right shift of rshift64 and rshift64_32. */
  function ShiftRight(x: nat, l: nat): nat {
    QuotientNotNegative(x, Pow2(l));
    x / Pow2(l)
  }

  /** The number of bits by which do_div64 shifts both operands. */
  function ShiftFor(y: nat): nat
    requires y >= TWO_32
  {
    Log2(y / TWO_32) + 1
  }

  /** The 32 leading bits of the divisor are all ones, so that adding one to them wraps to zero. */
  predicate LeadingOnes(y: nat) {
    y >= TWO_32 && ShiftRight(y, ShiftFor(y)) == TWO_32 - 1
  }

  /** The leading bits of a divisor of more than 32 bits fill a 32-bit word. */
  lemma ShiftedDivisor(y: nat)
    requires TWO_32 <= y < TWO_64
    ensures 1 <= ShiftFor(y) <= 32
    ensures TWO_32 / 2 <= ShiftRight(y, ShiftFor(y)) < TWO_32
  {
    var h := Log2(y / TWO_32);
    var p := Pow2(h + 1);
    Pow2Is32();
    if h >= 32 {
      Pow2Monotone(32, h);
    }
    assert p == 2 * Pow2(h);
    DivBounds(y, p, TWO_32 / 2, TWO_32);
  }

  lemma QuotientBound(b: nat, a: nat, q: nat)
    requires TWO_32 / 2 <= a && q * (a + 1) <= b < TWO_64 / 2
    ensures q < 2 * a && q < TWO_32
  {
    assert (2 * a) * (a + 1) == 2 * (a * a) + 2 * a;
    MulLe(TWO_32 / 2, a, a);
    if q >= 2 * a {
      MulLe(2 * a, q, a + 1);
    }
    if q >= TWO_32 {
      MulLe(TWO_32, q, a + 1);
    }
  }

  lemma Halved(x: nat, p: nat, b: nat, s: nat)
    requires p >= 2 && x == b * p + s && x < TWO_64
    ensures b < TWO_64 / 2
  {
    MulLe(2, p, b);
  }

  /** What is left after the estimated quotient is taken out. */
  lemma Residue(x: int, y: int, p: int, a: int, r: int, b: int, s: int, q: int, t: int)
    requires y == a * p + r && x == b * p + s && b == q * (a + 1) + t
    ensures x - q * y == q * (p - r) + t * p + s
  {
    ghost var c := q * (a + 1);
    assert (c + t) * p == c * p + t * p;
    assert c * p == q * ((a + 1) * p);
    var ap := a * p;
    assert (a + 1) * p == ap + p;
    assert q * (ap + p) == q * ap + q * p;
    assert q * (ap + r) == q * ap + q * r;
    assert q * (p - r) == q * p - q * r;
  }

  lemma ResidueBound(p: nat, a: nat, r: nat, s: nat, q: nat, t: nat)
    requires r < p && s < p && q < 2 * a && t <= a
    ensures 0 <= q * (p - r) + t * p + s < 3 * (a * p + r)
  {
    assert q * (p - r) == q * p - q * r && q * r >= 0;
    MulLe(r, p, q);
    MulLe(q + t + 1, 3 * a, p);
    assert (q + t + 1) * p == q * p + t * p + p;
    assert (3 * a) * p == 3 * (a * p);
  }

  lemma EstimateParts(x: nat, y: nat, p: nat, a: nat, r: nat, b: nat, s: nat, q: nat, t: nat)
    requires x < TWO_64 && p >= 2 && TWO_32 / 2 <= a && r < p && s < p && t <= a
    requires y == a * p + r && x == b * p + s && b == q * (a + 1) + t
    ensures q * y <= x && x - q * y < 3 * y && q < TWO_32
  {
    Halved(x, p, b, s);
    QuotientBound(b, a, q);
    Residue(x, y, p, a, r, b, s, q, t);
    ResidueBound(p, a, r, s, q, t);
  }

  /**
   * Dividing the shifted numbers, with one added to the divisor, underestimates the quotient, by
   * at most two.
   */
  lemma Estimate(x: nat, y: nat, p: nat)
    requires x < TWO_64 && p >= 2 && TWO_32 / 2 <= y / p
    ensures var q := x / p / (y / p + 1); q * y <= x && x - q * y < 3 * y && q < TWO_32
  {
    var a, b := y / p, x / p;
    EstimateParts(x, y, p, a, y % p, b, x % p, b / (a + 1), b % (a + 1));
  }

  /** The correction loop of do_div64: an estimate at most two short needs at most two subtractions. */
  method Correct(x: nat, y: nat, estimate: nat) returns (x0: nat, r: nat)
    requires estimate * y <= x && x - estimate * y < 3 * y
    ensures x0 == x / y && r == x % y && estimate <= x0 <= estimate + 2
  {
    x0 := estimate;
    r := x - y * x0;
    while r >= y
      invariant x == x0 * y + r && estimate <= x0 <= estimate + 2
      invariant r < if x0 == estimate then 3 * y else if x0 == estimate + 1 then 2 * y else y
      decreases r
    {
      assert (x0 + 1) * y == x0 * y + y;
      x0 := x0 + 1;
      r := r - y;
    }
    DivModUnique(x, y, x0, r);
  }

  lemma SumTimes(a: nat, b: nat, c: nat)
    ensures (a + b) * c == a * c + b * c
  {
  }

  /** The instruction faults exactly on a zero divisor and on quotients that 32 bits do not hold. */
  lemma DivlFaults(hi: nat, lo: nat, d: nat)
    requires lo < TWO_32
    ensures Divl(hi, lo, d) == Fault <==> d == 0 || (hi * TWO_32 + lo) / d >= TWO_32
  {
    if d != 0 {
      if hi >= d {
        MulLe(d, hi, TWO_32);
        QuotientFrom(hi * TWO_32 + lo, d, TWO_32);
      } else {
        MulLe(hi + 1, d, TWO_32);
        DivBounds(hi * TWO_32 + lo, d, 0, TWO_32);
      }
    }
  }

  lemma QuotientFrom(a: nat, d: nat, q: nat)
    requires d > 0 && q * d <= a
    ensures a / d >= q
  {
    assert a == a / d * d + a % d;
    if a / d < q {
      MulLe(a / d + 1, q, d);
    }
  }

  lemma DivlWhole(xs: nat, d: nat)
    requires xs / TWO_32 < d
    ensures Divl(xs / TWO_32, xs % TWO_32, d) == Divided(xs / d, xs % d)
  {
    assert xs / TWO_32 * TWO_32 + xs % TWO_32 == xs;
  }

  /** The divide instruction on the shifted operands: a usable estimate, unless the divisor wraps. */
  lemma ShiftedDivide(x: nat, y: nat, xs: nat, y0: nat)
    requires x < TWO_64 && TWO_32 <= y < TWO_64
    requires xs == ShiftRight(x, ShiftFor(y)) && y0 == ShiftRight(y, ShiftFor(y))
    ensures y0 < TWO_32
    ensures var d := Divl(xs / TWO_32, xs % TWO_32, (y0 + 1) % TWO_32);
      if LeadingOnes(y) then d == Fault
      else d.Divided? && d.quotient * y <= x && x - d.quotient * y < 3 * y && d.quotient < TWO_32
  {
    var p := Pow2(ShiftFor(y));
    ShiftedDivisor(y);
    ShiftedDividend(x, p);
    Estimate(x, y, p);
    DivideEstimate(x, y, xs, y0);
  }

  lemma DivideEstimate(x: nat, y: nat, xs: nat, y0: nat)
    requires TWO_32 / 2 <= y0 < TWO_32 && xs < TWO_64 / 2
    requires var q := xs / (y0 + 1); q * y <= x && x - q * y < 3 * y && q < TWO_32
    ensures var d := Divl(xs / TWO_32, xs % TWO_32, (y0 + 1) % TWO_32);
      if y0 == TWO_32 - 1 then d == Fault
      else d.Divided? && d.quotient * y <= x && x - d.quotient * y < 3 * y && d.quotient < TWO_32
  {
    if y0 == TWO_32 - 1 {
      assert (y0 + 1) % TWO_32 == 0;
    } else {
      assert (y0 + 1) % TWO_32 == y0 + 1;
      DivBounds(xs, TWO_32, 0, TWO_32 / 2);
      DivlWhole(xs, y0 + 1);
      assert Divl(xs / TWO_32, xs % TWO_32, y0 + 1).quotient == xs / (y0 + 1);
    }
  }

  /** do_div64 for a divisor of more than 32 bits: both operands are shifted until it has 32. */
  method DivideWide(x: nat, y: nat) returns (r: Outcome)
    requires x < TWO_64 && TWO_32 <= y < TWO_64
    ensures r == if LeadingOnes(y) then Fault else Divided(x / y, x % y)
  {
    var l := Log2(y / TWO_32) + 1;
    var y0 := ShiftRight(y, l);
    var xs := ShiftRight(x, l);
    var d := Divl(xs / TWO_32, xs % TWO_32, (y0 + 1) % TWO_32);
    ShiftedDivide(x, y, xs, y0);
    if d.Fault? {
      return Fault;
    }
    var x0, rem := Correct(x, y, d.quotient);
    return Divided(x0, rem);
  }

  /** do_div64: exact, except that it divides by zero when the 32 leading bits of the divisor are all ones. */
  method DoDiv64(x: nat, y: nat) returns (r: Outcome)
    requires x < TWO_64 && y < TWO_64
    ensures r.Fault? <==> LeadingOnes(y)
    ensures y == 0 ==> r == Divided(0, x)
    ensures y > 0 && !LeadingOnes(y) ==> r == Divided(x / y, x % y)
  {
    var y1, y0 := y / TWO_32, y % TWO_32;
    var x1, x0 := x / TWO_32, x % TWO_32;
    if y1 != 0 {
      r := DivideWide(x, y);
    } else if x1 < y0 {
      r := Divl(x1, x0, y0);
    } else if y0 != 0 {
      var high := Divl(0, x1, y0);
      LongDivision(x1, x0, y0);
      var low := Divl(high.remainder, x0, y0);
      r := Divided(high.quotient * TWO_32 + low.quotient, low.remainder);
    } else {
      r := Divided(0, x);
    }
  }

  lemma ShiftedDividend(x: nat, p: nat)
    requires x < TWO_64 && p >= 2
    ensures x / p < TWO_64 / 2
  {
    Halved(x, p, x / p, x % p);
  }

  /** Dividing digit by digit in base 2^32. */
  lemma LongDivision(x1: nat, x0: nat, y: nat)
    requires y > 0 && x0 < TWO_32
    ensures var x, q1, r1 := x1 * TWO_32 + x0, x1 / y, x1 % y;
      x / y == q1 * TWO_32 + (r1 * TWO_32 + x0) / y && x % y == (r1 * TWO_32 + x0) % y
  {
    var q1, r1 := x1 / y, x1 % y;
    var z := r1 * TWO_32 + x0;
    var q0, r0 := z / y, z % y;
    assert x1 * TWO_32 + x0 == (q1 * TWO_32 + q0) * y + r0;
    DivModUnique(x1 * TWO_32 + x0, y, q1 * TWO_32 + q0, r0);
  }

  /** The divisors on which do_div64 faults: all those of more than 32 bits that begin with 32 ones. */
  lemma FaultingDivisors(y: nat)
    requires y < TWO_64
    ensures LeadingOnes(y) <==> exists l :: 1 <= l <= 32 && ShiftRight(y, l) == TWO_32 - 1
  {
    if LeadingOnes(y) {
      ShiftedDivisor(y);
    }
    forall l | 1 <= l <= 32 && ShiftRight(y, l) == TWO_32 - 1
      ensures LeadingOnes(y)
    {
      LeadingOnesAt(y, l);
    }
  }

  lemma LeadingOnesAt(y: nat, l: nat)
    requires 1 <= l && ShiftRight(y, l) == TWO_32 - 1
    ensures LeadingOnes(y)
  {
    var p := Pow2(l);
    assert y == (TWO_32 - 1) * p + y % p;
    assert p == 2 * Pow2(l - 1);
    Log2Unique(y / TWO_32, l - 1);
  }

  /** A concrete divisor on which it faults. */
  lemma LargestDivisorFaults()
    ensures LeadingOnes(TWO_64 - 1)
  {
    Pow2Is32();
    DivModUnique(TWO_64 - 1, TWO_32, TWO_32 - 1, TWO_32 - 1);
    LeadingOnesAt(TWO_64 - 1, 32);
  }

  // ---------------------------------------------------------------- shift and subtract

  /** div64 of user/tests/lib/math.c (the variant without DIVISION_FOIREUSE), exact for every divisor. */
  method Div64(x: nat, div: nat) returns (q: nat, rem: nat)
    requires x < TWO_64 && div < TWO_64
    ensures if div == 0 then q == 0 && rem == x else q == x / div && rem == x % div
  {
    if div > x || div == 0 {
      if div != 0 {
        DivModUnique(x, div, 0, x);
      }
      return 0, x;
    }
    var d: nat, mul: nat := Normalize(x, div);
    q := mul;
    rem := x - d;
    while true
      invariant IsPow2(mul) && d == mul * div
      invariant x == q * div + rem && 0 <= rem < d
      decreases mul
    {
      if mul / 2 == 0 {
        assert mul == 1;
        DivModUnique(x, div, q, rem);
        return;
      }
      HalveMultiple(mul, div);
      mul := mul / 2;
      d := d / 2;
      if rem < d {
        continue;
      }
      SumTimes(q, mul, div);
      q := q + mul;
      rem := rem - d;
    }
  }

  /** The doubling loop of div64: the divisor is shifted left as far as it fits. */
  method Normalize(x: nat, div: nat) returns (d: nat, mul: nat)
    requires 0 < div <= x < TWO_64
    ensures IsPow2(mul) && d == mul * div && d <= x < 2 * d
  {
    d, mul := div, 1;
    assert IsPow2(1) by { assert 1 == Pow2(0); }
    while d / TWO_32 < 0x8000_0000
      invariant IsPow2(mul) && d == mul * div && 0 < d <= x
      decreases x - d
    {
      if d + d > x {
        break;
      }
      assert (mul + mul) * div == mul * div + mul * div;
      DoublePow2(mul);
      d := d + d;
      mul := mul + mul;
    }
  }

  ghost predicate IsPow2(n: nat) {
    exists k: nat :: n == Pow2(k)
  }

  lemma DoublePow2(n: nat)
    requires IsPow2(n)
    ensures IsPow2(n + n)
  {
    var k: nat :| n == Pow2(k);
    assert n + n == Pow2(k + 1);
  }

  lemma HalveMultiple(mul: nat, div: nat)
    requires IsPow2(mul) && mul > 1
    ensures IsPow2(mul / 2) && mul * div / 2 == mul / 2 * div && mul * div == 2 * (mul / 2 * div)
  {
    var k: nat :| mul == Pow2(k);
    assert mul == 2 * Pow2(k - 1) && mul / 2 == Pow2(k - 1);
    assert (2 * Pow2(k - 1)) * div == 2 * (Pow2(k - 1) * div);
  }

  /** Both divisions agree wherever do_div64 does not fault. */
  method DivisionsAgree(x: nat, y: nat) returns (same: bool)
    requires x < TWO_64 && y < TWO_64 && !LeadingOnes(y)
    ensures same
  {
    var r := DoDiv64(x, y);
    var q, rem := Div64(x, y);
    same := r == Divided(q, rem);
  }

  // ---------------------------------------------------------------- multiplication

  /** Four 16-bit digits, as mul64 splits its operands. */
  function Digits(a: int, b: int, c: int, d: int): int {
    a + 0x1_0000 * b + 0x1_0000_0000 * c + 0x1_0000_0000_0000 * d
  }

  /** mul64: 64-bit product from 32-bit products of 16-bit digits, every sum wrapping at 64 bits. */
  method Mul64(x: nat, y: nat) returns (res: nat)
    requires x < TWO_64 && y < TWO_64
    ensures res == x * y % TWO_64
  {
    var a, b, c, d := SplitDigits(x);
    var e, f, g, h := SplitDigits(y);
    res := WrappedSum(d * e + c * f + b * g + a * h, c * e + b * f + a * g, b * e + a * f, a * e);
    ProductOfDigits(a, b, c, d, e, f, g, h);
  }

  /** The additions and shifts of mul64: wrapping at every step is wrapping once. */
  method WrappedSum(s3: int, s2: int, s1: int, s0: int) returns (res: nat)
    ensures res == Digits(s0, s1, s2, s3) % TWO_64
  {
    res := s3 % TWO_64;
    res := res * 0x1_0000 % TWO_64;
    res := (res + s2) % TWO_64;
    WrapStep(s3, s2);
    ghost var t2 := s3 * 0x1_0000 + s2;
    res := res * 0x1_0000 % TWO_64;
    res := (res + s1) % TWO_64;
    WrapStep(t2, s1);
    ghost var t1 := t2 * 0x1_0000 + s1;
    res := res * 0x1_0000 % TWO_64;
    res := (res + s0) % TWO_64;
    WrapStep(t1, s0);
  }

  /** The masks and shifts at the start of mul64. */
  method SplitDigits(x: nat) returns (a: nat, b: nat, c: nat, d: nat)
    requires x < TWO_64
    ensures x == Digits(a, b, c, d) && a < 0x1_0000 && b < 0x1_0000 && c < 0x1_0000 && d < 0x1_0000
  {
    var r := x;
    a, r := r % 0x1_0000, r / 0x1_0000;
    b, r := r % 0x1_0000, r / 0x1_0000;
    c, r := r % 0x1_0000, r / 0x1_0000;
    d := r % 0x1_0000;
  }

  lemma WrapStep(s: int, t: int)
    ensures (s % TWO_64 * 0x1_0000 % TWO_64 + t) % TWO_64 == (s * 0x1_0000 + t) % TWO_64
  {
  }

  lemma TimesDigits(a: int, b: int, c: int, d: int, y: int)
    ensures Digits(a, b, c, d) * y == Digits(a * y, b * y, c * y, d * y)
  {
    assert (a + 0x1_0000 * b) * y == a * y + 0x1_0000 * (b * y);
    assert (c + 0x1_0000 * d) * y == c * y + 0x1_0000 * (d * y);
    var lo, hi := a + 0x1_0000 * b, c + 0x1_0000 * d;
    assert (lo + 0x1_0000_0000 * hi) * y == lo * y + 0x1_0000_0000 * (hi * y);
  }

  lemma DigitsTimes(a: int, e: int, f: int, g: int, h: int)
    ensures a * Digits(e, f, g, h) == Digits(a * e, a * f, a * g, a * h)
  {
    TimesDigits(e, f, g, h, a);
  }

  lemma Recombine(ae: int, af: int, ag: int, ah: int, be: int, bf: int, bg: int, bh: int, ce: int, cf: int, cg: int,
    ch: int, de: int, df: int, dg: int, dh: int) returns (high: int)
    ensures Digits(Digits(ae, af, ag, ah), Digits(be, bf, bg, bh), Digits(ce, cf, cg, ch), Digits(de, df, dg, dh))
      == Digits(ae, be + af, ce + bf + ag, de + cf + bg + ah) + high * TWO_64
  {
    high := df + cg + bh + 0x1_0000 * (dg + ch) + 0x1_0000_0000 * dh;
  }

  /** Schoolbook multiplication, the digits above 64 bits being dropped. */
  lemma ProductOfDigits(a: int, b: int, c: int, d: int, e: int, f: int, g: int, h: int)
    ensures Digits(a, b, c, d) * Digits(e, f, g, h) % TWO_64 ==
      Digits(a * e, b * e + a * f, c * e + b * f + a * g, d * e + c * f + b * g + a * h) % TWO_64
  {
    TimesDigits(a, b, c, d, Digits(e, f, g, h));
    DigitsTimes(a, e, f, g, h);
    DigitsTimes(b, e, f, g, h);
    DigitsTimes(c, e, f, g, h);
    DigitsTimes(d, e, f, g, h);
    var high := Recombine(a * e, a * f, a * g, a * h, b * e, b * f, b * g, b * h,
      c * e, c * f, c * g, c * h, d * e, d * f, d * g, d * h);
    var low := Digits(a * e, b * e + a * f, c * e + b * f + a * g, d * e + c * f + b * g + a * h);
    ModAddMultiple(low, high, TWO_64);
  }
}
