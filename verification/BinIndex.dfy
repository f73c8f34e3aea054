/**
 * Sizes and indices of the boundary-tag allocator (shared/malloc.c): padding of requests, the bin
 * and fastbin a size belongs to, and the bits of the bin map.
 */
module BinIndex {
  import opened Arithmetic

  const MINSIZE: nat := 16
  const NBINS: nat := 96
  const MIN_LARGE_SIZE: nat := 256
  const NFASTBINS: nat := 10

  // ---------------------------------------------------------------- request sizes

  /** REQUEST_OUT_OF_RANGE: the bound is -2 * MINSIZE as an unsigned 32-bit number. */
  predicate OutOfRange(req: nat) {
    req >= TWO_32 - 2 * MINSIZE
  }

  /** request2size: room for a head, rounded up to a multiple of 8. */
  function Request2Size(req: nat): (nb: nat)
    ensures nb % 8 == 0 && nb >= MINSIZE && nb >= req + 4
    ensures nb == MINSIZE || nb < req + 12
    ensures !OutOfRange(req) ==> nb + MINSIZE < TWO_32
  {
    if req + 11 < MINSIZE then MINSIZE else (req + 11) / 8 * 8
  }

  /** The least multiple of 8 from 16 on with 4 bytes for a head; 2^32 - 32 bytes and more are refused. */
  lemma RequestInFigures(req: nat)
    ensures Request2Size(req) % 8 == 0 && Request2Size(req) >= 16 && Request2Size(req) >= req + 4
    ensures forall k: nat :: k % 8 == 0 && k >= 16 && k >= req + 4 ==> Request2Size(req) <= k
    ensures OutOfRange(req) <==> req >= 0xffff_ffe0
  {
  }

  /** sYSMALLOc passes nb - 7 back to mALLOc, which pads it to nb again. */
  lemma PaddedAgain(nb: nat)
    requires nb % 8 == 0 && nb >= MINSIZE
    ensures Request2Size(nb - 7) == nb
  {
    assert (nb + 4) / 8 == nb / 8;
  }

  // ---------------------------------------------------------------- bins

  /** (sz >> (m + 6)) & 3 */
  function TwoBitsAt(sz: nat, m: nat): (q: nat)
    ensures q < 4
  {
    sz / Pow2(m + 6) % 4
  }

  /** The two bits of sz after its highest one. */
  function NextTwoBits(sz: nat): (q: nat)
    requires sz >= MIN_LARGE_SIZE
    ensures q < 4
  {
    TwoBitsAt(sz, Log2(sz / 256))
  }

  /** The bin of a large size: four for each power of two from 256 on, the last for all that is left. */
  function LargeIndex(sz: nat): (i: nat)
    requires sz >= MIN_LARGE_SIZE
  {
    if sz >= 0x100_0000 then NBINS - 1 else 32 + 4 * Log2(sz / 256) + NextTwoBits(sz)
  }

  /** bin_index */
  function Index(sz: nat): (i: nat) {
    if sz < MIN_LARGE_SIZE then sz / 8 else LargeIndex(sz)
  }

  function Sub32(x: nat, y: nat): (d: nat)
    requires x < TWO_32 && y < TWO_32
    ensures d < TWO_32
  {
    if x >= y then x - y else TWO_32 + x - y
  }

  /** (v >> 16) & b, for b a power of two. */
  function HighBit(v: nat, b: nat): (r: nat)
    requires b > 0
    ensures r == 0 || r == b
  {
    v / 0x1_0000 / b % 2 * b
  }

  /** x & ~(x >> 1) for a two-bit x. */
  function TopOfTwo(x: nat): nat
    requires x < 4
  {
    if x == 3 then 2 else x
  }

  /** x << n in an unsigned word that is wide enough. */
  function ShiftLeft(x: nat, n: nat): nat {
    if n == 0 then x else 2 * ShiftLeft(x, n - 1)
  }

  /** Shifts by 0 or k, for the k the search uses. */
  lemma ShiftBy(x: nat, n: nat)
    requires n in {0, 2, 4, 8}
    ensures ShiftLeft(x, n) == if n == 0 then x else if n == 2 then 4 * x else if n == 4 then 16 * x else 256 * x
  {
    ShiftIsProduct(x, n);
    Powers();
  }

  lemma {:induction false} ShiftTwice(x: nat, n: nat, m: nat)
    ensures ShiftLeft(ShiftLeft(x, n), m) == ShiftLeft(x, n + m)
  {
    if m != 0 {
      ShiftTwice(x, n, m - 1);
    }
  }

  lemma {:induction false} ShiftIsProduct(x: nat, n: nat)
    ensures ShiftLeft(x, n) == x * Pow2(n)
  {
    if n != 0 {
      ShiftIsProduct(x, n - 1);
      assert x * (2 * Pow2(n - 1)) == 2 * (x * Pow2(n - 1));
    }
  }

  /** ((x - bound) >> 16) & b: b exactly when x is below the bound, since the difference then wraps. */
  method BorrowTest(x: nat, bound: nat, b: nat) returns (r: nat)
    requires x < 0x1_0000 && 0 < bound <= 0x1_0000 && b in {2, 4, 8}
    ensures r == if x < bound then b else 0
  {
    r := HighBit(Sub32(x, bound), b);
    if x < bound {
      assert Sub32(x, bound) / 0x1_0000 == 0xffff;
    } else {
      assert Sub32(x, bound) / 0x1_0000 == 0;
    }
  }

  /** largebin_index, by the branch-free search for the highest bit. */
  method LargebinIndex(sz: nat) returns (i: nat)
    requires MIN_LARGE_SIZE <= sz < TWO_32
    ensures i == LargeIndex(sz)
  {
    var x := sz / 256;
    if x >= 0x1_0000 {
      return NBINS - 1;
    }
    ghost var x0 := x;
    var n := BorrowTest(x, 0x100, 8);
    ShiftBy(x, n);
    x := ShiftLeft(x, n);
    assert 0x100 <= x < 0x1_0000;
    var m := BorrowTest(x, 0x1000, 4);
    ShiftBy(x, m);
    ShiftTwice(x0, n, m);
    n := n + m;
    x := ShiftLeft(x, m);
    assert 0x1000 <= x < 0x1_0000;
    m := BorrowTest(x, 0x4000, 2);
    ShiftBy(x, m);
    ShiftTwice(x0, n, m);
    n := n + m;
    x := ShiftLeft(x, m) / 0x4000;
    assert 1 <= x < 4;
    HighestBit(x0, n, x);
    m := 13 - n + TopOfTwo(x);
    i := 32 + 4 * m + TwoBitsAt(sz, m);
  }

  lemma Powers()
    ensures Pow2(0) == 1 && Pow2(2) == 4 && Pow2(4) == 16 && Pow2(8) == 256
    ensures Pow2(14) == 0x4000 && Pow2(15) == 0x8000
  {
    assert Pow2(4) == 16;
    assert Pow2(6) == 64;
    assert Pow2(8) == 256;
    assert Pow2(11) == 2048;
  }

  /** n shifts bring the highest bit of x0 to position 15 or 14; x is what those two bits hold. */
  lemma HighestBit(x0: nat, n: nat, x: nat)
    requires n <= 14 && n % 2 == 0 && 0 < x0
    requires ShiftLeft(x0, n) / 0x4000 == x && 1 <= x < 4
    ensures 13 - n + TopOfTwo(x) >= 0 && 13 - n + TopOfTwo(x) == Log2(x0)
  {
    var w := ShiftLeft(x0, n);
    var l := if x == 1 then 14 else 15;
    var m := l - n;
    assert Pow2(l) <= w < 2 * Pow2(l) by {
      Powers();
    }
    ShiftIsProduct(x0, n);
    Pow2Sum(m, n);
    MulBetween(Pow2(m), x0, Pow2(n));
    Log2Unique(x0, m);
  }

  lemma MulBetween(a: nat, b: nat, c: nat)
    requires c > 0 && a * c <= b * c < 2 * (a * c)
    ensures a <= b < 2 * a
  {
    assert (2 * a) * c == 2 * (a * c);
    if b < a {
      MulLe(b + 1, a, c);
    } else if 2 * a <= b {
      MulLe(2 * a, b, c);
    }
  }

  /** The bits above: sz / 2^(m+6) lies between 4 and 7. */
  lemma TwoBitsOf(sz: nat)
    requires sz >= MIN_LARGE_SIZE
    ensures var m := Log2(sz / 256);
      4 <= sz / Pow2(m + 6) < 8 && NextTwoBits(sz) == sz / Pow2(m + 6) - 4
  {
    var m := Log2(sz / 256);
    Pow2Sum(m, 6);
    assert Pow2(6) == 64;
    Scale(sz, Pow2(m));
    DivBounds(sz, Pow2(m + 6), 4, 8);
  }

  /** The bins in figures: one for each multiple of 8 below 256, one for all sizes from 2^24 on. */
  lemma IndexInFigures(sz: nat)
    ensures sz < 256 ==> Index(sz) == sz / 8
    ensures sz >= 0x100_0000 ==> Index(sz) == 95
  {
  }

  /** Between them four for each power of two. */
  lemma LargeIndexInFigures(sz: nat, m: nat)
    requires m < 16 && 256 * Pow2(m) <= sz < 512 * Pow2(m)
    ensures Index(sz) == 28 + 4 * m + sz / (64 * Pow2(m))
  {
    QuarterPages(sz, Pow2(m));
    Log2Unique(sz / 256, m);
    TwoBitsOf(sz);
    BelowLast(m);
    SixDoublings(m);
    assert Index(sz) == 32 + 4 * m + (sz / Pow2(m + 6) - 4);
  }

  lemma SixDoublings(m: nat)
    ensures Pow2(m + 6) == 64 * Pow2(m)
  {
    assert Pow2(m + 3) == 2 * Pow2(m + 2) && Pow2(m + 2) == 2 * Pow2(m + 1) && Pow2(m + 1) == 2 * Pow2(m);
    assert Pow2(m + 6) == 2 * Pow2(m + 5) && Pow2(m + 5) == 2 * Pow2(m + 4) && Pow2(m + 4) == 2 * Pow2(m + 3);
  }

  lemma QuarterPages(sz: nat, e: nat)
    requires 256 * e <= sz < 512 * e && e >= 1
    ensures sz >= 256 && e <= sz / 256 < 2 * e
  {
  }

  lemma BelowLast(m: nat)
    requires m < 16
    ensures 512 * Pow2(m) <= 0x100_0000
  {
    Pow2Monotone(m + 1, 16);
    assert Pow2(16) == 65536 by {
      Pow2Sum(8, 8);
      Pow2Sum(4, 4);
      assert Pow2(4) == 16;
    }
  }

  lemma Scale(sz: nat, e: nat)
    requires e <= sz / 256 < 2 * e
    ensures 4 * (64 * e) <= sz < 8 * (64 * e)
  {
  }

  /** Within one power of two. */
  lemma SameLogMonotone(a: nat, b: nat)
    requires MIN_LARGE_SIZE <= a <= b && Log2(a / 256) == Log2(b / 256)
    ensures NextTwoBits(a) <= NextTwoBits(b)
  {
    TwoBitsOf(a);
    TwoBitsOf(b);
    DivMonotone(a, b, Pow2(Log2(a / 256) + 6));
  }

  lemma IndexInRange(sz: nat)
    requires sz >= MINSIZE
    ensures 2 <= Index(sz) < NBINS
    ensures Index(sz) < 32 <==> sz < MIN_LARGE_SIZE
  {
    if MIN_LARGE_SIZE <= sz < 0x100_0000 {
      TwoBitsOf(sz);
      LogBelow16(sz / 256);
    }
  }

  lemma LogBelow16(x: nat)
    requires 0 < x < 0x1_0000
    ensures Log2(x) < 16
  {
    assert Pow2(8) == 256;
    Pow2Sum(8, 8);
    if 16 <= Log2(x) {
      Pow2Monotone(16, Log2(x));
    }
  }

  /** Larger sizes never belong to lower bins. */
  lemma IndexMonotone(a: nat, b: nat)
    requires MINSIZE <= a <= b
    ensures Index(a) <= Index(b)
  {
    IndexInRange(a);
    IndexInRange(b);
    if MIN_LARGE_SIZE <= a && b < 0x100_0000 {
      Log2Monotone(a / 256, b / 256);
      if Log2(a / 256) == Log2(b / 256) {
        SameLogMonotone(a, b);
      }
    }
  }

  /** A chunk in a bin above that of nb is larger than nb. */
  lemma HigherBinFits(nb: nat, sz: nat)
    requires nb >= MINSIZE && sz >= MINSIZE && Index(nb) < Index(sz)
    ensures nb < sz
  {
    if sz <= nb {
      IndexMonotone(sz, nb);
    }
  }

  /** A small bin holds chunks of one size only. */
  lemma SmallBinsAreExact(a: nat, b: nat)
    requires a % 8 == 0 && b % 8 == 0 && MINSIZE <= a < MIN_LARGE_SIZE && b >= MINSIZE && Index(a) == Index(b)
    ensures a == b
  {
    IndexInRange(a);
    IndexInRange(b);
  }

  // ---------------------------------------------------------------- bits of the bin map

  predicate Bit(w: nat, i: nat) {
    if i == 0 then w % 2 == 1 else Bit(w / 2, i - 1)
  }

  /** w & v */
  function And(w: nat, v: nat): (r: nat) {
    if w == 0 || v == 0 then 0 else 2 * And(w / 2, v / 2) + (if w % 2 == 1 && v % 2 == 1 then 1 else 0)
  }

  lemma {:induction false} AndBits(w: nat, v: nat, i: nat)
    ensures Bit(And(w, v), i) <==> Bit(w, i) && Bit(v, i)
  {
    if w == 0 {
      NoBits(0, i);
    } else if v == 0 {
      NoBits(0, i);
    } else {
      AndHalves(w, v);
      if i != 0 {
        AndBits(w / 2, v / 2, i - 1);
      }
    }
  }

  lemma AndHalves(w: nat, v: nat)
    requires w != 0 && v != 0
    ensures And(w, v) / 2 == And(w / 2, v / 2) && And(w, v) % 2 == if w % 2 == 1 && v % 2 == 1 then 1 else 0
  {
  }

  /** w | (1 << i) */
  function OrBit(w: nat, i: nat): (r: nat) {
    if i == 0 then w / 2 * 2 + 1 else 2 * OrBit(w / 2, i - 1) + w % 2
  }

  /** w & ~v */
  function AndNot(w: nat, v: nat): (r: nat)
    ensures r <= w
  {
    if w == 0 then 0 else 2 * AndNot(w / 2, v / 2) + (if w % 2 == 1 && v % 2 == 0 then 1 else 0)
  }

  lemma {:induction false} AndNotClears(w: nat, i: nat)
    ensures AndNot(w, Pow2(i)) == ClearBit(w, i)
  {
    if i == 0 {
      AndNotZero(w / 2);
    } else {
      AndNotClears(w / 2, i - 1);
      assert Pow2(i) / 2 == Pow2(i - 1) && Pow2(i) % 2 == 0;
      if w == 0 {
        assert ClearBit(0, i) == 0;
      }
    }
  }

  lemma {:induction false} AndNotZero(w: nat)
    ensures AndNot(w, 0) == w
  {
    if w != 0 {
      AndNotZero(w / 2);
    }
  }

  /** bit <<= 1, in 32 bits */
  function ShiftBit(bit: nat): nat {
    2 * bit % TWO_32
  }

  lemma ShiftedBit(e: nat)
    requires e < 32
    ensures ShiftBit(Pow2(e)) == if e == 31 then 0 else Pow2(e + 1)
    ensures e < 31 ==> Pow2(e + 1) < TWO_32
  {
    Pow2Is32();
    Pow2Monotone(e + 1, 32);
    if e < 31 {
      Pow2Monotone(e + 2, 32);
      assert Pow2(e + 2) == 2 * Pow2(e + 1);
    }
  }

  /** w & ~(1 << i) */
  function ClearBit(w: nat, i: nat): (r: nat)
    ensures r <= w
  {
    if i == 0 then w / 2 * 2 else 2 * ClearBit(w / 2, i - 1) + w % 2
  }

  lemma {:induction false} OrBitSets(w: nat, i: nat, j: nat)
    ensures Bit(OrBit(w, i), j) <==> Bit(w, j) || j == i
  {
    if i != 0 && j != 0 {
      OrBitSets(w / 2, i - 1, j - 1);
    }
  }

  lemma {:induction false} ClearBitClears(w: nat, i: nat, j: nat)
    ensures Bit(ClearBit(w, i), j) <==> Bit(w, j) && j != i
  {
    if i == 0 {
      if j != 0 {
        assert ClearBit(w, 0) / 2 == w / 2;
      }
    } else if j != 0 {
      ClearBitClears(w / 2, i - 1, j - 1);
    }
  }

  lemma HalfFits(w: nat, half: nat)
    requires w < 2 * half
    ensures w / 2 < half && w / 2 * 2 + 1 < 2 * half
  {
  }

  lemma {:induction false} OrBitFits(w: nat, i: nat, k: nat)
    requires w < Pow2(k) && i < k
    ensures OrBit(w, i) < Pow2(k)
  {
    var half := Pow2(k - 1);
    assert Pow2(k) == 2 * half;
    HalfFits(w, half);
    if i != 0 {
      OrBitFits(w / 2, i - 1, k - 1);
      assert OrBit(w, i) == 2 * OrBit(w / 2, i - 1) + w % 2;
    }
  }

  /** Testing one bit of the map with a mask. */
  lemma {:induction false} MaskTests(w: nat, i: nat)
    ensures And(Pow2(i), w) != 0 <==> Bit(w, i)
  {
    if i != 0 {
      MaskTests(w / 2, i - 1);
      assert Pow2(i) / 2 == Pow2(i - 1) && Pow2(i) % 2 == 0;
      if w == 0 {
        NoBits(0, i);
      }
    }
  }

  /** A word below 2^i has no bit from i on: `bit > map` means that the rest of the block is empty. */
  lemma {:induction false} NoBits(w: nat, i: nat)
    requires w < Pow2(i)
    ensures !Bit(w, i)
  {
    if i != 0 {
      NoBits(w / 2, i - 1);
    }
  }

  lemma NoBitsFrom(w: nat, i: nat, j: nat)
    requires w < Pow2(i) && i <= j
    ensures !Bit(w, j)
  {
    Pow2Monotone(i, j);
    NoBits(w, j);
  }

  /** A word of at least 2^i without bit i is at least 2^(i+1): the search for a set bit cannot run out. */
  lemma {:induction false} BitAbove(w: nat, i: nat)
    requires w >= Pow2(i) && !Bit(w, i)
    ensures w >= Pow2(i + 1)
  {
    if i != 0 {
      BitAbove(w / 2, i - 1);
    }
  }
}
