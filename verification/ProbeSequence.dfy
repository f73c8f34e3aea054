/**
 * The order in which `hash_lookup` visits the slots of a table (kernel/hash.c).
 * `index = 5 * index + perturb + 1` runs on 32-bit unsigned words; once `perturb` has been
 * shifted down to zero the masked index follows x -> 5x + 1 modulo a power of two, whose
 * single cycle contains every slot.
 */
module ProbeSequence {
  import opened Arithmetic

  datatype Probe = Probe(index: nat, perturb: nat)

  function Start(size: nat, hash: nat): Probe
    requires size > 0
  {
    Probe(hash % size, hash)
  }

  function Next(p: Probe): Probe {
    Probe((5 * p.index + p.perturb + 1) % TWO_32, p.perturb / 32)
  }

  function ProbeAt(size: nat, hash: nat, n: nat): Probe
    requires size > 0
  {
    if n == 0 then Start(size, hash) else Next(ProbeAt(size, hash, n - 1))
  }

  /** The slot inspected by the n-th turn of the loop. */
  function SlotAt(size: nat, hash: nat, n: nat): (slot: nat)
    requires size > 0
    ensures slot < size
  {
    ProbeAt(size, hash, n).index % size
  }

  lemma FirstTurn(size: nat, hash: nat)
    requires size > 0
    ensures ProbeAt(size, hash, 0) == Probe(hash % size, hash) && SlotAt(size, hash, 0) == hash % size
  {
    DivModUnique(hash % size, size, 0, hash % size);
  }

  lemma NextTurn(size: nat, hash: nat, n: nat, index: nat, perturb: nat)
    requires size > 0 && ProbeAt(size, hash, n) == Probe(index, perturb)
    ensures var index' := (5 * index + perturb + 1) % TWO_32;
      ProbeAt(size, hash, n + 1) == Probe(index', perturb / 32) && SlotAt(size, hash, n + 1) == index' % size
  {
    assert ProbeAt(size, hash, n + 1) == Next(Probe(index, perturb));
  }

  /** The unbounded recurrence x -> 5x + 1. */
  function Iterate(n: nat, x: nat): nat {
    if n == 0 then x else 5 * Iterate(n - 1, x) + 1
  }

  /** 1 + 5 + ... + 5^(n-1), so that n steps from x reach x + GeometricSum(n) * (4x + 1). */
  function GeometricSum(n: nat): nat {
    if n == 0 then 0 else 5 * GeometricSum(n - 1) + 1
  }

  lemma Distribute(a: int, b: int, c: int)
    ensures (a + b) * c == a * c + b * c
  {
  }

  lemma MulAssoc(a: int, b: int, c: int)
    ensures (a * b) * c == a * (b * c)
  {
  }

  lemma OddTimesOdd(a: int, b: int)
    ensures (2 * a + 1) * (2 * b + 1) == 2 * (2 * (a * b) + a + b) + 1
  {
    Distribute(2 * a, 1, 2 * b + 1);
    assert (2 * a) * (2 * b + 1) == 2 * (a * (2 * b + 1));
    assert a * (2 * b + 1) == 2 * (a * b) + a;
  }

  lemma {:induction false} IterateClosedForm(n: nat, x: nat)
    ensures Iterate(n, x) == x + GeometricSum(n) * (4 * x + 1)
  {
    if n != 0 {
      IterateClosedForm(n - 1, x);
      Distribute(5 * GeometricSum(n - 1), 1, 4 * x + 1);
      MulAssoc(5, GeometricSum(n - 1), 4 * x + 1);
    }
  }

  lemma {:induction false} IterateCompose(m: nat, n: nat, x: nat)
    ensures Iterate(m + n, x) == Iterate(m, Iterate(n, x))
  {
    if m != 0 {
      IterateCompose(m - 1, n, x);
      assert m + n - 1 == m - 1 + n;
    }
  }

  /** Doubling the number of steps multiplies the sum by twice an odd number. */
  lemma GeometricSumDouble(n: nat)
    ensures GeometricSum(2 * n) == GeometricSum(n) * (2 * (2 * GeometricSum(n) + 1))
  {
    var g := GeometricSum(n);
    IterateFromZero(2 * n);
    IterateCompose(n, n, 0);
    IterateFromZero(n);
    IterateClosedForm(n, g);
    Factor(g);
  }

  lemma IterateFromZero(n: nat)
    ensures Iterate(n, 0) == GeometricSum(n)
  {
    IterateClosedForm(n, 0);
  }

  lemma Factor(g: int)
    ensures g + g * (4 * g + 1) == g * (2 * (2 * g + 1))
  {
    Distribute(1, 4 * g + 1, g);
  }

  /** 2^k steps move by 2^k times an odd number: the step that doubles the period. */
  lemma {:induction false} GeometricSumOfPow2(k: nat) returns (h: nat)
    ensures GeometricSum(Pow2(k)) == Pow2(k) * (2 * h + 1)
  {
    if k == 0 {
      h := 0;
      assert GeometricSum(1) == 1;
    } else {
      var h' := GeometricSumOfPow2(k - 1);
      var p, g := Pow2(k - 1), GeometricSum(Pow2(k - 1));
      GeometricSumDouble(p);
      h := 2 * (h' * g) + h' + g;
      TimesTwiceOdd(p, h', g);
    }
  }

  lemma TimesTwiceOdd(p: int, a: int, b: int)
    ensures (p * (2 * a + 1)) * (2 * (2 * b + 1)) == (2 * p) * (2 * (2 * (a * b) + a + b) + 1)
  {
    OddTimesOdd(a, b);
    var o1, o2 := 2 * a + 1, 2 * b + 1;
    MulAssoc(p, o1, 2 * o2);
    assert o1 * (2 * o2) == 2 * (o1 * o2);
    assert p * (2 * (o1 * o2)) == (2 * p) * (o1 * o2);
  }

  lemma OddMultiple(p: int, h: int, y: int) returns (j: int)
    ensures (p * (2 * h + 1)) * (4 * y + 1) == p + j * (2 * p)
  {
    OddTimesOdd(h, 2 * y);
    j := 2 * (h * (2 * y)) + h + 2 * y;
    MulAssoc(p, 2 * h + 1, 4 * y + 1);
    assert (2 * h + 1) * (4 * y + 1) == 2 * j + 1;
    PlusOneTimes(2 * j, p);
    MulAssoc(j, 2, p);
  }

  lemma PlusOneTimes(a: int, p: int)
    ensures p * (a + 1) == p + a * p
  {
  }

  /** 2^k further steps switch between the two residues modulo 2^(k+1) that agree modulo 2^k. */
  lemma HalfPeriodStep(k: nat, y: nat)
    ensures Iterate(Pow2(k), y) % Pow2(k + 1) == (y + Pow2(k)) % Pow2(k + 1)
  {
    var p := Pow2(k);
    var h := GeometricSumOfPow2(k);
    IterateClosedForm(p, y);
    var j := OddMultiple(p, h, y);
    ModAddMultiple(y + p, j, 2 * p);
  }

  /** From x every residue modulo 2^k is reached in fewer than 2^k steps. */
  lemma {:induction false} FullPeriod(k: nat, x: nat, t: nat) returns (n: nat)
    requires t < Pow2(k)
    ensures n < Pow2(k) && Iterate(n, x) % Pow2(k) == t
  {
    if k == 0 {
      n := 0;
    } else {
      ModBound(t, Pow2(k - 1));
      var m := FullPeriod(k - 1, x, t % Pow2(k - 1));
      n := FullPeriodStep(k, x, t, m);
    }
  }

  lemma ModBound(a: int, d: int)
    requires d > 0
    ensures 0 <= a % d < d
  {
  }

  lemma FullPeriodStep(k: nat, x: nat, t: nat, m: nat) returns (n: nat)
    requires k > 0 && t < Pow2(k)
    requires m < Pow2(k - 1) && Iterate(m, x) % Pow2(k - 1) == t % Pow2(k - 1)
    ensures n < Pow2(k) && Iterate(n, x) % Pow2(k) == t
  {
    var p, d, y := Pow2(k - 1), Pow2(k), Iterate(m, x);
    TwoResidues(y, t, p, d);
    HalfPeriodStep(k - 1, y);
    IterateCompose(p, m, x);
    n := if y % d == t then m else p + m;
  }

  /** A number equal to t modulo p is t or t + p modulo d = 2p. */
  lemma TwoResidues(y: nat, t: nat, p: nat, d: nat)
    requires 0 < p && d == 2 * p && t < d && y % p == t % p
    ensures y % d == t || (y + p) % d == t
  {
    var q, r := y / d, y % d;
    ModOfMod(y, 2, p);
    DivModUnique(r, p, if r < p then 0 else 1, if r < p then r else r - p);
    DivModUnique(t, p, if t < p then 0 else 1, if t < p then t else t - p);
    if r + p == t {
      DivModUnique(y + p, d, q, t);
    } else if r == t + p {
      assert (q + 1) * d == q * d + d;
      DivModUnique(y + p, d, q + 1, t);
    }
  }

  /** Seven shifts by five empty a 32-bit perturbation, which then stays zero. */
  lemma {:induction false} PerturbVanishes(size: nat, hash: nat, n: nat)
    requires size > 0 && hash < TWO_32 && n >= 7
    ensures ProbeAt(size, hash, n).perturb == 0
  {
    if n > 7 {
      PerturbVanishes(size, hash, n - 1);
    } else {
      assert ProbeAt(size, hash, 0).perturb == hash;
      var p1 := ProbeAt(size, hash, 1).perturb;
      assert p1 == hash / 32;
      var p3 := ProbeAt(size, hash, 3).perturb;
      assert p3 == p1 / 32 / 32 by {
        assert ProbeAt(size, hash, 2).perturb == p1 / 32;
      }
      var p5 := ProbeAt(size, hash, 5).perturb;
      assert p5 == p3 / 32 / 32 by {
        assert ProbeAt(size, hash, 4).perturb == p3 / 32;
      }
      assert ProbeAt(size, hash, 6).perturb == p5 / 32;
      assert ProbeAt(size, hash, 7).perturb == p5 / 32 / 32;
    }
  }

  lemma AffineMod(a: nat, b: nat, d: nat)
    requires d > 0 && a % d == b % d
    ensures (5 * a + 1) % d == (5 * b + 1) % d
  {
    var r := a % d;
    assert 5 * a + 1 == 5 * r + 1 + (5 * (a / d)) * d by { MulAssoc(5, a / d, d); }
    ModAddMultiple(5 * r + 1, 5 * (a / d), d);
    assert 5 * b + 1 == 5 * r + 1 + (5 * (b / d)) * d by { MulAssoc(5, b / d, d); }
    ModAddMultiple(5 * r + 1, 5 * (b / d), d);
  }

  /** Without perturbation the masked 32-bit index follows the unbounded recurrence. */
  lemma {:induction false} FollowsRecurrence(k: nat, hash: nat, j: nat)
    requires k <= 32 && hash < TWO_32
    ensures SlotAt(Pow2(k), hash, 7 + j) == Iterate(j, SlotAt(Pow2(k), hash, 7)) % Pow2(k)
  {
    var size := Pow2(k);
    if j == 0 {
      DivModUnique(SlotAt(size, hash, 7), size, 0, SlotAt(size, hash, 7));
    } else {
      FollowsRecurrence(k, hash, j - 1);
      PerturbVanishes(size, hash, 7 + j - 1);
      var i := ProbeAt(size, hash, 7 + j - 1).index;
      var x := Iterate(j - 1, SlotAt(size, hash, 7));
      Pow2Sum(32 - k, k);
      Pow2Is32();
      ModOfMod(5 * i + 1, Pow2(32 - k), size);
      AffineMod(i, x, size);
    }
  }

  /** For every hash code the probe sequence visits every slot of a table of 2^k slots. */
  lemma VisitsEverySlot(k: nat, hash: nat, slot: nat) returns (n: nat)
    requires k <= 32 && hash < TWO_32 && slot < Pow2(k)
    ensures n < 7 + Pow2(k) && SlotAt(Pow2(k), hash, n) == slot
  {
    var j := FullPeriod(k, SlotAt(Pow2(k), hash, 7), slot);
    FollowsRecurrence(k, hash, j);
    n := 7 + j;
  }
}
