/**
 * Why the searches of mALLOc (shared/malloc.c) end at a best fit: bins are ordered by size, large
 * bins are sorted, and the bin map never hides a bin that has chunks.
 */
module FitSearch {
  import opened Arithmetic
  import opened BinIndex
  import opened BoundaryTags
  import opened BinLists
  import opened AllocatorState
  import opened AllocatorSteps

  /** v is a smallest one among the free chunks, unsorted and binned, of at least nb bytes. */
  ghost predicate IsBestFit(a: Arena, v: nat, nb: nat) {
    && v in a.at && a.at[v].status.Binned? && a.at[v].size >= nb
    && forall q {:trigger a.at[q]} :: q in a.at && a.at[q].status.Binned? && a.at[q].size >= nb ==>
      a.at[v].size <= a.at[q].size
  }

  ghost predicate NoneFits(a: Arena, nb: nat) {
    forall q {:trigger a.at[q]} :: q in a.at && a.at[q].status.Binned? ==> a.at[q].size < nb
  }

  /** The same chunks, of which the free ones may be in other bins. */
  ghost predicate SamePool(a: Arena, a': Arena) {
    && a'.base == a.base && a'.end == a.end && a'.at.Keys == a.at.Keys
    && forall q {:trigger SameChunk(a, a', q)} :: q in a.at ==> SameChunk(a, a', q)
  }

  ghost predicate SameChunk(a: Arena, a': Arena, q: nat) {
    && q in a.at && q in a'.at && a'.at[q].size == a.at[q].size
    && (q != a.base ==> a'.at[q].before == a.at[q].before)
    && (a'.at[q].status == a.at[q].status || (a.at[q].status.Binned? && a'.at[q].status.Binned?))
  }

  lemma SamePoolTwice(a: Arena, a1: Arena, a2: Arena)
    requires SamePool(a, a1) && SamePool(a1, a2)
    ensures SamePool(a, a2)
  {
    forall q | q in a.at
      ensures SameChunk(a, a2, q)
    {
      assert SameChunk(a, a1, q) && SameChunk(a1, a2, q);
    }
  }

  lemma SamePoolFits(a: Arena, a': Arena, v: nat, nb: nat)
    requires SamePool(a, a')
    ensures IsBestFit(a', v, nb) ==> IsBestFit(a, v, nb)
    ensures NoneFits(a', nb) ==> NoneFits(a, nb)
  {
    forall q | q in a.at
      ensures SameChunk(a, a', q) && q in a'.at
    {
    }
    assert v in a'.at ==> v in a.at && SameChunk(a, a', v);
  }

  lemma ExactIsBest(a: Arena, v: nat, nb: nat)
    requires v in a.at && a.at[v].status.Binned? && a.at[v].size == nb
    ensures IsBestFit(a, v, nb)
  {
  }

  /** The unsorted list is empty: every free chunk is in its own bin. */
  ghost predicate AllBinned(s: State) {
    Sound(s, NONE) && |s.rings[UNSORTED]| == 1
  }

  /** Where a free chunk is. */
  lemma WhereBinned(s: State, q: nat) returns (b: nat, j: nat)
    requires AllBinned(s) && q in s.arena.at && s.arena.at[q].status.Binned?
    ensures 2 <= b < NBINS && 1 <= j < |s.rings[b]| && s.rings[b][j] == q
    ensures b == Index(s.arena.at[q].size) && s.arena.at[q].size >= MINSIZE
  {
    b := s.arena.at[q].status.bin;
    j := PositionOf(s.mem, s.bins, s.arena, s.rings, q);
    assert b != UNSORTED;
    assert BinSized(s.arena, b, s.rings[b]) && SizedFor(s.arena, s.rings[b][j], b) && ChunkOk(s.arena, q);
  }

  /** No chunk of bin idx, after position k, is large enough. */
  ghost predicate TooSmallAfter(s: State, idx: nat, k: nat, nb: nat)
    requires idx < |s.rings|
  {
    forall j {:trigger s.rings[idx][j]} :: k < j < |s.rings[idx]| && s.rings[idx][j] in s.arena.at ==>
      s.arena.at[s.rings[idx][j]].size < nb
  }

  /** The first chunk that fits, from the small end of the sorted bin of nb. */
  lemma FitInBin(s: State, idx: nat, k: nat, nb: nat)
    requires AllBinned(s) && nb >= MIN_LARGE_SIZE && idx == Index(nb) && 32 <= idx < NBINS && 1 <= k < |s.rings[idx]|
    requires TooSmallAfter(s, idx, k, nb)
    requires s.rings[idx][k] in s.arena.at && s.arena.at[s.rings[idx][k]].size >= nb
    ensures IsBestFit(s.arena, s.rings[idx][k], nb)
  {
    var a, v := s.arena, s.rings[idx][k];
    RingNodes(s.mem, s.bins, a, s.rings, idx, k);
    assert Member(a, v, idx) && BinSized(a, idx, s.rings[idx]) && SizedFor(a, v, idx) && ChunkOk(a, v);
    forall q | q in a.at && a.at[q].status.Binned? && a.at[q].size >= nb
      ensures a.at[v].size <= a.at[q].size
    {
      var b, j := WhereBinned(s, q);
      IndexMonotone(nb, a.at[q].size);
      if b == idx {
        assert s.rings[idx][j] == q && j <= k;
        assert j == k || NotSmaller(a, s.rings[idx][j], s.rings[idx][k]);
      } else {
        HigherBinFits(a.at[v].size, a.at[q].size);
      }
    }
  }

  /** Bins above idx, below hi, are empty. */
  ghost predicate EmptyBetween(rings: seq<seq<nat>>, idx: nat, hi: nat) {
    forall b {:trigger rings[b]} :: idx < b < hi && b < |rings| ==> |rings[b]| == 1
  }

  /** The last chunk of the next non-empty bin. */
  lemma FitInHigher(s: State, idx: nat, i: nat, nb: nat)
    requires AllBinned(s) && nb >= MINSIZE && idx == Index(nb) && idx < i < NBINS && TooSmallAfter(s, idx, 0, nb)
    requires EmptyBetween(s.rings, idx, i) && |s.rings[i]| > 1
    ensures IsBestFit(s.arena, s.rings[i][|s.rings[i]| - 1], nb)
  {
    var a, r := s.arena, s.rings[i];
    var v := r[|r| - 1];
    IndexInRange(nb);
    RingNodes(s.mem, s.bins, a, s.rings, i, |r| - 1);
    assert Member(a, v, i) && BinSized(a, i, r) && SizedFor(a, v, i) && ChunkOk(a, v);
    HigherBinFits(nb, a.at[v].size);
    forall q | q in a.at && a.at[q].status.Binned? && a.at[q].size >= nb
      ensures a.at[v].size <= a.at[q].size
    {
      var b, j := WhereBinned(s, q);
      IndexMonotone(nb, a.at[q].size);
      assert s.rings[b][j] == q && b != idx;
      if b == i {
        SameBin(s, i, j, |r| - 1);
      } else {
        assert i < b;
        HigherBinFits(a.at[v].size, a.at[q].size);
      }
    }
  }

  /** In a bin, chunks do not get larger towards the end. */
  lemma SameBin(s: State, i: nat, j: nat, k: nat)
    requires Sound(s, NONE) && 2 <= i < NBINS && 1 <= j <= k < |s.rings[i]|
    ensures NotSmaller(s.arena, s.rings[i][j], s.rings[i][k])
  {
    var a, r := s.arena, s.rings[i];
    RingNodes(s.mem, s.bins, a, s.rings, i, j);
    RingNodes(s.mem, s.bins, a, s.rings, i, k);
    assert BinSized(a, i, r) && Member(a, r[j], i) && Member(a, r[k], i) && SizedFor(a, r[j], i)
      && SizedFor(a, r[k], i);
    assert ChunkOk(a, r[j]) && ChunkOk(a, r[k]) && Aligned(a, r[j]) && Aligned(a, r[k]);
    if i >= 32 {
      assert j == k || NotSmaller(a, r[j], r[k]);
    } else {
      IndexInRange(a.at[r[j]].size);
      SmallBinsAreExact(a.at[r[j]].size, a.at[r[k]].size);
    }
  }

  /** Every bin from that of nb on has been found empty, or too small. */
  lemma NothingFits(s: State, idx: nat, nb: nat)
    requires AllBinned(s) && nb >= MINSIZE && idx == Index(nb) && idx < NBINS && TooSmallAfter(s, idx, 0, nb)
    requires EmptyBetween(s.rings, idx, NBINS)
    ensures NoneFits(s.arena, nb)
  {
    forall q | q in s.arena.at && s.arena.at[q].status.Binned?
      ensures s.arena.at[q].size < nb
    {
      var b, j := WhereBinned(s, q);
      assert b <= idx;
      if b < idx {
        HigherBinFits(s.arena.at[q].size, nb);
      } else {
        assert s.rings[idx][j] == q;
      }
    }
  }

  // ---------------------------------------------------------------- the bin map

  lemma MarkKeeps(binmap: seq<nat>, rings: seq<seq<nat>>, i: nat)
    requires MapOk(binmap, rings) && i < NBINS
    ensures var m := binmap[i / 32 := OrBit(binmap[i / 32], i % 32)];
      MapOk(m, rings) && Marked(m, i)
  {
    var m := binmap[i / 32 := OrBit(binmap[i / 32], i % 32)];
    assert Pow2(32) == TWO_32 by {
      Pow2Is32();
    }
    OrBitFits(binmap[i / 32], i % 32, 32);
    OrBitSets(binmap[i / 32], i % 32, i % 32);
    forall j | 2 <= j < NBINS && |rings[j]| > 1
      ensures Marked(m, j)
    {
      assert Marked(binmap, j);
      OrBitSets(binmap[i / 32], i % 32, j % 32);
    }
  }

  /** Bin i is in this block of the map, or just after it; bit is its bit there, or 0. */
  ghost predicate Cursor(i: nat, block: nat, bit: nat) {
    32 * block <= i <= 32 * block + 32 && bit == if i == 32 * block + 32 then 0 else Pow2(i - 32 * block)
  }

  lemma CursorStart(i: nat)
    ensures Cursor(i, i / 32, Pow2(i % 32))
  {
    assert i - 32 * (i / 32) == i % 32;
  }

  lemma CursorNext(i: nat, block: nat, bit: nat)
    requires Cursor(i, block, bit) && bit != 0
    ensures Cursor(i + 1, block, ShiftBit(bit))
  {
    ShiftedBit(i - 32 * block);
  }

  /** `bit > map || bit == 0`: the rest of the block is empty. */
  lemma RestOfBlockEmpty(binmap: seq<nat>, rings: seq<seq<nat>>, idx: nat, i: nat, block: nat, bit: nat)
    requires MapOk(binmap, rings) && Cursor(i, block, bit) && block < 3 && (bit > binmap[block] || bit == 0)
    requires 2 <= idx < i && EmptyBetween(rings, idx, i) && HeadersThere(rings)
    ensures EmptyBetween(rings, idx, 32 * block + 32)
  {
    forall b | idx < b < 32 * block + 32 && b < |rings|
      ensures |rings[b]| == 1
    {
      if i <= b {
        BlockEmpty(binmap, rings, block, i - 32 * block, b);
      }
    }
  }

  /** `(bit & map) == 0`: the bin is empty, and there is a set bit further up in the block. */
  lemma BinSkipped(binmap: seq<nat>, rings: seq<seq<nat>>, idx: nat, i: nat, block: nat, bit: nat)
    requires MapOk(binmap, rings) && Cursor(i, block, bit) && block < 3 && 0 < bit <= binmap[block]
      && And(bit, binmap[block]) == 0
    requires 2 <= idx < i && EmptyBetween(rings, idx, i) && HeadersThere(rings)
    ensures EmptyBetween(rings, idx, i + 1) && Cursor(i + 1, block, ShiftBit(bit)) && 0 < ShiftBit(bit) <= binmap[block]
  {
    var e := i - 32 * block;
    MaskTests(binmap[block], e);
    UnmarkedEmpty(binmap, rings, block, e);
    BitAbove(binmap[block], e);
    ShiftedBit(e);
    Pow2Is32();
  }

  /** A marked bin found empty: its bit is cleared. */
  lemma FalseAlarm(binmap: seq<nat>, rings: seq<seq<nat>>, idx: nat, i: nat, block: nat, bit: nat)
    requires MapOk(binmap, rings) && Cursor(i, block, bit) && block < 3 && bit != 0 && |rings[i]| == 1
    requires idx < i && EmptyBetween(rings, idx, i)
    ensures MapOk(binmap[block := AndNot(binmap[block], bit)], rings)
    ensures EmptyBetween(rings, idx, i + 1) && Cursor(i + 1, block, ShiftBit(bit))
  {
    var e := i - 32 * block;
    AndNotClears(binmap[block], e);
    UnmarkKeeps(binmap, rings, block, e);
    CursorNext(i, block, bit);
  }

  ghost predicate HeadersThere(rings: seq<seq<nat>>) {
    forall b {:trigger rings[b]} :: 1 <= b < |rings| ==> |rings[b]| >= 1
  }

  lemma RingsHaveHeaders(s: State)
    requires Sound(s, NONE)
    ensures HeadersThere(s.rings)
  {
    forall b | 1 <= b < |s.rings|
      ensures |s.rings[b]| >= 1
    {
      BinHeader(s, b);
    }
  }

  /** A bit found to be a false alarm is cleared. */
  lemma UnmarkKeeps(binmap: seq<nat>, rings: seq<seq<nat>>, b: nat, e: nat)
    requires MapOk(binmap, rings) && b < 3 && e < 32 && |rings[32 * b + e]| <= 1
    ensures MapOk(binmap[b := ClearBit(binmap[b], e)], rings)
  {
    var m := binmap[b := ClearBit(binmap[b], e)];
    forall j | 2 <= j < NBINS && |rings[j]| > 1
      ensures Marked(m, j)
    {
      assert Marked(binmap, j);
      if j / 32 == b {
        ClearBitClears(binmap[b], e, j % 32);
        assert j == 32 * b + j % 32;
      }
    }
  }

  /** Bins of a block whose bits from e on are clear are empty. */
  lemma BlockEmpty(binmap: seq<nat>, rings: seq<seq<nat>>, b: nat, e: nat, j: nat)
    requires MapOk(binmap, rings) && b < 3 && binmap[b] < Pow2(e) && 32 * b + e <= j < 32 * b + 32 && 2 <= j
    ensures |rings[j]| <= 1
  {
    NoBitsFrom(binmap[b], e, j - 32 * b);
    assert j / 32 == b && j % 32 == j - 32 * b;
    assert !Marked(binmap, j);
  }

  /** So is a bin whose bit is clear. */
  lemma UnmarkedEmpty(binmap: seq<nat>, rings: seq<seq<nat>>, b: nat, e: nat)
    requires MapOk(binmap, rings) && b < 3 && e < 32 && !Bit(binmap[b], e) && 2 <= 32 * b + e
    ensures |rings[32 * b + e]| <= 1
  {
    var j := 32 * b + e;
    assert j / 32 == b && j % 32 == e;
    assert !Marked(binmap, j);
  }

  // ---------------------------------------------------------------- sorted insertion

  lemma RingHead(s: State, i: nat, k: nat)
    requires Sound(s, NONE) && 1 <= i < NBINS && 1 <= k < |s.rings[i]|
    ensures Member(s.arena, s.rings[i][k], i) && Head(s.mem, s.rings[i][k]) == s.arena.at[s.rings[i][k]].size + 1
    ensures SizeOf(Head(s.mem, s.rings[i][k])) == s.arena.at[s.rings[i][k]].size
    ensures Fd(s.mem, s.rings[i][k]) == After(s.rings[i], k) && Bk(s.mem, s.rings[i][k]) == s.rings[i][k - 1]
  {
    RingNodes(s.mem, s.bins, s.arena, s.rings, i, k);
    FreeChunk(s, s.rings[i][k]);
    assert BinOk(s.mem, s.bins, s.arena, i, s.rings[i]);
    assert Linked(s.mem, s.rings[i], k) && Linked(s.mem, s.rings[i], k - 1);
    ZeroNotIn(s.arena);
    HeadOf(s, NONE, s.rings[i][k]);
  }

  lemma BinHeader(s: State, i: nat)
    requires Sound(s, NONE) && 1 <= i < NBINS
    ensures |s.rings[i]| >= 1 && s.rings[i][0] == Header(s.bins, i)
    ensures Fd(s.mem, Header(s.bins, i)) == After(s.rings[i], 0)
    ensures Bk(s.mem, Header(s.bins, i)) == s.rings[i][|s.rings[i]| - 1]
    ensures forall k {:trigger s.rings[i][k]} :: 1 <= k < |s.rings[i]| ==> s.rings[i][k] != Header(s.bins, i)
  {
    assert BinOk(s.mem, s.bins, s.arena, i, s.rings[i]);
    var r := s.rings[i];
    assert Linked(s.mem, r, 0) && Linked(s.mem, r, |r| - 1);
    forall k | 1 <= k < |r|
      ensures r[k] != r[0]
    {
      assert Spaced(r[k], r[0]);
    }
  }

  /** Every chunk of the bin is larger than size. */
  ghost predicate AllLarger(a: Arena, r: seq<nat>, n: nat, size: nat) {
    forall j {:trigger r[j]} :: 1 <= j < n && j < |r| && r[j] in a.at ==> a.at[r[j]].size >= size
  }

  /** Where p goes: after position k, if chunks up to k are not smaller and the next one is not larger. */
  lemma OrderedPlace(s: State, p: nat, i: nat, k: nat)
    requires Sound(s, NONE) && p in s.arena.at && 32 <= i < NBINS && k < |s.rings[i]|
    requires AllLarger(s.arena, s.rings[i], k + 1, s.arena.at[p].size)
    requires k + 1 < |s.rings[i]| && s.rings[i][k + 1] in s.arena.at ==>
      s.arena.at[s.rings[i][k + 1]].size <= s.arena.at[p].size
    ensures InOrder(s.arena, s.rings[i], p, k)
  {
    var a, r := s.arena, s.rings[i];
    assert BinSized(a, i, r);
    forall j | 1 <= j <= k
      ensures NotSmaller(a, r[j], p)
    {
      RingHead(s, i, j);
    }
    forall j | k < j < |r|
      ensures NotSmaller(a, p, r[j])
    {
      RingHead(s, i, j);
      RingHead(s, i, k + 1);
      assert j == k + 1 || NotSmaller(a, r[k + 1], r[j]);
    }
  }

  // ---------------------------------------------------------------- the last remainder

  /** No free chunk has exactly nb bytes. */
  ghost predicate NoneExact(a: Arena, nb: nat) {
    forall q {:trigger a.at[q]} :: q in a.at && a.at[q].status.Binned? ==> a.at[q].size != nb
  }

  /** When the small bin is empty and the only unsorted chunk is larger, there is no exact fit. */
  lemma OnlyUnsorted(s: State, v: nat, nb: nat)
    requires Sound(s, NONE) && MINSIZE <= nb < MIN_LARGE_SIZE && nb % 8 == 0 && |s.rings[nb / 8]| == 1
    requires |s.rings[UNSORTED]| == 2 && s.rings[UNSORTED][1] == v && v in s.arena.at && s.arena.at[v].size != nb
    ensures NoneExact(s.arena, nb)
  {
    forall q | q in s.arena.at && s.arena.at[q].status.Binned?
      ensures s.arena.at[q].size != nb
    {
      var b := s.arena.at[q].status.bin;
      var j := PositionOf(s.mem, s.bins, s.arena, s.rings, q);
      if b != UNSORTED {
        assert BinSized(s.arena, b, s.rings[b]) && SizedFor(s.arena, s.rings[b][j], b);
        IndexInRange(nb);
      }
    }
  }

  lemma SamePoolExact(a: Arena, a': Arena, nb: nat)
    requires SamePool(a, a')
    ensures NoneExact(a', nb) ==> NoneExact(a, nb)
  {
    forall q | q in a.at
      ensures SameChunk(a, a', q) && q in a'.at
    {
    }
  }

  lemma SamePoolSelf(a: Arena)
    ensures SamePool(a, a)
  {
    forall q | q in a.at
      ensures SameChunk(a, a, q)
    {
    }
  }

  /** The last chunk follows the header: it is the only one. */
  lemma OnlyOne(s: State, k: nat)
    requires Sound(s, NONE) && 1 <= k == |s.rings[UNSORTED]| - 1 && Bk(s.mem, s.rings[UNSORTED][k]) == s.bins
    ensures |s.rings[UNSORTED]| == 2
  {
    RingHead(s, UNSORTED, k);
    BinHeader(s, UNSORTED);
  }

  /** The list is empty when its header is its last node. */
  lemma OnlyHeader(s: State)
    requires Sound(s, NONE) && |s.rings[UNSORTED]| >= 1 && s.rings[UNSORTED][|s.rings[UNSORTED]| - 1] == s.bins
    ensures |s.rings[UNSORTED]| == 1
  {
    BinHeader(s, UNSORTED);
  }

  lemma LastUnsorted(s: State, v: nat)
    requires Sound(s, NONE) && LastIs(s.rings, s.bins, v) && v != s.bins
    ensures v in s.arena.at && SizeOf(Head(s.mem, v)) == s.arena.at[v].size
  {
    RingHead(s, UNSORTED, |s.rings[UNSORTED]| - 1);
  }

  /** A chunk of another size goes to another bin than that of a small request. */
  lemma OtherSmallBin(s: State, v: nat, nb: nat)
    requires Sound(s, NONE) && v in s.arena.at && s.arena.at[v].size != nb && nb % 8 == 0 && MINSIZE <= nb
    ensures Index(s.arena.at[v].size) != UNSORTED && (nb < MIN_LARGE_SIZE ==> Index(s.arena.at[v].size) != nb / 8)
  {
    assert ChunkOk(s.arena, v) && Aligned(s.arena, v);
    IndexInRange(s.arena.at[v].size);
    if nb < MIN_LARGE_SIZE && Index(s.arena.at[v].size) == Index(nb) {
      SmallBinsAreExact(nb, s.arena.at[v].size);
    }
  }

  /** Chunks may have been sorted into their bins, but none has become unsorted. */
  ghost predicate NoNewUnsorted(a: Arena, a': Arena) {
    forall q :: Has(a', q, Binned(UNSORTED)) ==> Has(a, q, Binned(UNSORTED))
  }

  /** Moving a chunk from one bin to another. */
  lemma MovedPool(a: Arena, v: nat, i: nat)
    requires v in a.at && a.at[v].status.Binned? && i != UNSORTED
    ensures SamePool(a, WithStatus(WithStatus(a, v, Loose), v, Binned(i)))
    ensures NoNewUnsorted(a, WithStatus(WithStatus(a, v, Loose), v, Binned(i)))
  {
    var a' := WithStatus(WithStatus(a, v, Loose), v, Binned(i));
    forall q | q in a.at
      ensures SameChunk(a, a', q)
    {
    }
  }

  // ---------------------------------------------------------------- what mALLOc promises

  /** Where a block that mALLOc returns comes from. */
  datatype Source =
    | Refused      // NULL
    | FromFastbin
    | FromSmallBin
    | Remainder    // of the last split
    | BestFit
    | FromTop

  /** In use, or free between chunks in use, or the top after a chunk in use. */
  ghost predicate Coalesced(a: Arena, p: nat)
    requires p in a.at
  {
    match a.at[p].status
    case InUse => true
    case Binned(_) => PrevUsed(a, p) && Next(a, p) in a.at && Used(a.at[Next(a, p)].status)
    case Top => PrevUsed(a, p) && Next(a, p) == a.end
    case _ => false
  }

  /** Heap a after malloc_consolidate: the same blocks in use, and between them single free chunks. */
  ghost predicate Consolidated(a: Arena, c: Arena) {
    && c.base == a.base && c.end == a.end && Tiling(c)
    && SameLive(a, c, NONE)
    && forall p {:trigger Coalesced(c, p)} :: p in c.at ==> Coalesced(c, p)
  }

  lemma ConsolidatedIsFastless(a: Arena, c: Arena)
    requires Consolidated(a, c)
    ensures NoneFast(c) && NONE !in c.at
  {
    ZeroNotIn(c);
    forall p | p in c.at
      ensures !c.at[p].status.Fast?
    {
      assert Coalesced(c, p);
    }
  }

  /** What the invariant makes of a heap without fastbin chunks. */
  lemma SoundIsConsolidated(s: State, a: Arena)
    requires Sound(s, NONE) && OnlyLoose(s.arena, NONE) && NoneFast(s.arena)
    requires SameLive(a, s.arena, NONE) && s.arena.base == a.base && s.arena.end == a.end
    ensures Consolidated(a, s.arena)
  {
    ZeroNotIn(s.arena);
    forall p | p in s.arena.at
      ensures Coalesced(s.arena, p)
    {
      if s.arena.at[p].status.Binned? {
        FreeChunk(s, p);
      } else if s.arena.at[p].status.Top? {
        TopIsLast(s, NONE);
        assert TagOk(s.mem, s.arena, NONE, p);
      }
    }
  }

  /** Free chunks lie between chunks in use, counting those in fastbins, and the top comes after one, at the end. */
  ghost predicate Lone(a: Arena, p: nat)
    requires p in a.at
  {
    match a.at[p].status
    case Binned(_) => PrevUsed(a, p) && Next(a, p) in a.at && Used(a.at[Next(a, p)].status)
    case Top => PrevUsed(a, p) && Next(a, p) == a.end
    case Loose => false
    case _ => true
  }

  ghost predicate AllLone(a: Arena) {
    Tiling(a) && forall p {:trigger Lone(a, p)} :: p in a.at ==> Lone(a, p)
  }

  /** What the invariant says of every heap at rest. */
  lemma SoundIsLone(s: State)
    requires Sound(s, NONE) && OnlyLoose(s.arena, NONE)
    ensures AllLone(s.arena)
  {
    ZeroNotIn(s.arena);
    forall p | p in s.arena.at
      ensures Lone(s.arena, p)
    {
      if s.arena.at[p].status.Binned? {
        FreeChunk(s, p);
      } else if s.arena.at[p].status.Top? {
        TopIsLast(s, NONE);
        assert TagOk(s.mem, s.arena, NONE, p);
      }
    }
  }

  /** The chunks that count as used in c are used in d, in the same way. */
  ghost predicate UsedIn(c: Arena, d: Arena) {
    forall p {:trigger c.at[p]} :: p in c.at && Used(c.at[p].status) ==>
      p in d.at && d.at[p].status == c.at[p].status && d.at[p].size == c.at[p].size
  }

  /** The used chunks determine the others: heaps at rest with the same ones differ in the bins only. */
  lemma LoneIsUnique(c: Arena, d: Arena)
    requires AllLone(c) && AllLone(d) && c.base == d.base && c.end == d.end && UsedIn(c, d) && UsedIn(d, c)
    ensures SamePool(c, d)
  {
    forall p | p in c.at
      ensures SamePlace(c, d, p)
    {
      FreePlace(c, d, p);
    }
    forall p | p in d.at
      ensures SamePlace(d, c, p)
    {
      FreePlace(d, c, p);
    }
    forall p | p in c.at
      ensures SameChunk(c, d, p)
    {
      assert SamePlace(c, d, p) && ChunkOk(c, p) && ChunkOk(d, p) && Lone(c, p) && Lone(d, p);
      assert Next(c, p) in c.at ==> ChunkOk(c, Next(c, p)) && SamePlace(c, d, Next(c, p));
      assert Next(d, p) in d.at ==> ChunkOk(d, Next(d, p));
      if p != c.base {
        var q := c.at[p].before;
        assert SamePlace(c, d, q) && ChunkOk(d, q);
      }
    }
  }

  ghost predicate SamePlace(c: Arena, d: Arena, p: nat) {
    && p in c.at && p in d.at && d.at[p].size == c.at[p].size && (Used(c.at[p].status) <==> Used(d.at[p].status))
    && (Used(c.at[p].status) ==> d.at[p].status == c.at[p].status)
  }

  /** A chunk that is not used starts after the same used chunk, and ends before the same one. */
  lemma FreePlace(c: Arena, d: Arena, p: nat)
    requires AllLone(c) && AllLone(d) && c.base == d.base && c.end == d.end && UsedIn(c, d) && UsedIn(d, c) && p in c.at
    ensures SamePlace(c, d, p)
  {
    assert ChunkOk(c, p) && Lone(c, p);
    if !Used(c.at[p].status) {
      if p != c.base {
        var q := c.at[p].before;
        assert Lone(c, q) && q in d.at && ChunkOk(d, q);
      }
      assert p in d.at && ChunkOk(d, p) && Lone(d, p);
      var e, n := Next(c, p), Next(d, p);
      assert e in c.at ==> ChunkOk(c, e) && Lone(c, e) && e in d.at && Apart(d, p, e);
      assert n in d.at ==> ChunkOk(d, n) && Lone(d, n) && n in c.at && Apart(c, p, n);
    }
  }

  /** There is only one consolidated heap: consolidation leaves no choice but that of the bins. */
  lemma ConsolidatedIsUnique(a: Arena, c: Arena, d: Arena)
    requires Consolidated(a, c) && Consolidated(a, d)
    ensures SamePool(c, d)
  {
    ConsolidatedIsLone(a, c);
    ConsolidatedIsLone(a, d);
    ConsolidatedIsFastless(a, c);
    ConsolidatedIsFastless(a, d);
    LoneIsUnique(c, d);
  }

  lemma ConsolidatedIsLone(a: Arena, c: Arena)
    requires Consolidated(a, c)
    ensures AllLone(c)
  {
    forall p | p in c.at
      ensures Lone(c, p)
    {
      assert Coalesced(c, p);
    }
  }

  // ---------------------------------------------------------------- what fREe promises of a chunk not for a fastbin

  /** Heap a after chunk p has become part of the free chunk c: everything else that was used still is. */
  ghost predicate FreedHeap(a: Arena, p: nat, a': Arena, c: nat) {
    && a'.base == a.base && a'.end == a.end && AllLone(a') && SameLive(a, a', p) && SameFast(a, a')
    && p in a.at && c in a'.at && !Used(a'.at[c].status) && c <= p && Next(a, p) <= Next(a', c)
  }

  /** So it is determined, too, and with it the chunk that p has become part of. */
  lemma FreedIsUnique(a: Arena, p: nat, c: Arena, x: nat, d: Arena, y: nat)
    requires FreedHeap(a, p, c, x) && FreedHeap(a, p, d, y) && Tiling(a)
    ensures SamePool(c, d) && x == y
  {
    assert forall q :: q in c.at && c.at[q].status.InUse? ==> q != p && q in a.at && a.at[q].status.InUse?;
    assert forall q :: q in d.at && d.at[q].status.InUse? ==> q != p && q in a.at && a.at[q].status.InUse?;
    LoneIsUnique(c, d);
    assert ChunkOk(a, p) && SameChunk(c, d, x) && Apart(d, x, y) && Apart(d, y, x) && ChunkOk(d, x) && ChunkOk(d, y);
  }

  /** Fastbins that have not been touched hold the same chunks. */
  lemma SameFasts(s: State, s': State)
    requires Sound(s, NONE) && Sound(s', NONE) && s'.fasts == s.fasts
    ensures SameFast(s.arena, s'.arena)
  {
    FastsKept(s, s');
    FastsKept(s', s);
  }

  lemma FastsKept(s: State, s': State)
    requires Sound(s, NONE) && Sound(s', NONE) && s'.fasts == s.fasts
    ensures forall p {:trigger s.arena.at[p]} :: p in s.arena.at && s.arena.at[p].status.Fast? ==>
      p in s'.arena.at && s'.arena.at[p].status == s.arena.at[p].status && s'.arena.at[p].size == s.arena.at[p].size
  {
    forall p | p in s.arena.at && s.arena.at[p].status.Fast?
      ensures p in s'.arena.at
      ensures s'.arena.at[p].status == s.arena.at[p].status && s'.arena.at[p].size == s.arena.at[p].size
    {
      var j := s.arena.at[p].status.index;
      assert InFast(s.fasts, p, j) && FastOk(s.mem, s.arena, j, s.heads[j], s.fasts[j]);
      assert FastOk(s'.mem, s'.arena, j, s'.heads[j], s'.fasts[j]);
      var k :| 0 <= k < |s.fasts[j]| && s.fasts[j][k] == p;
      assert FastMember(s.arena, s.fasts[j][k], j) && FastMember(s'.arena, s'.fasts[j][k], j);
    }
  }

  /** The heap in which a request is served: as it is, or with its fastbins emptied. */
  ghost predicate PoolOf(a: Arena, pool: Arena) {
    NONE !in a.at && (pool == a || (!NoneFast(a) && Consolidated(a, pool)))
  }

  /** After malloc_consolidate. */
  lemma PoolOfConsolidated(a: Arena, c: Arena)
    requires NONE !in a.at && Consolidated(a, c) && (NoneFast(a) ==> c == a)
    ensures PoolOf(a, c)
  {
  }

  /** A pool without fastbin chunks, such as that of a large request, is determined by the heap. */
  lemma FastlessPoolIsUnique(a: Arena, c: Arena, d: Arena)
    requires PoolOf(a, c) && PoolOf(a, d) && NoneFast(c) && NoneFast(d)
    ensures SamePool(c, d)
  {
    if NoneFast(a) {
      SamePoolSelf(a);
    } else {
      ConsolidatedIsUnique(a, c, d);
    }
  }

  lemma SamePoolFast(a: Arena, a': Arena)
    requires SamePool(a, a')
    ensures NoneFast(a) <==> NoneFast(a')
  {
    forall q | q in a.at
      ensures SameChunk(a, a', q) && q in a'.at
    {
    }
  }

  /** Which chunk p was chosen for nb bytes; `last` is the chunk that the last split left. */
  ghost predicate Chosen(how: Source, pool: Arena, p: nat, nb: nat, last: nat) {
    match how
    case Refused => false
    case FromFastbin => p in pool.at && pool.at[p].status.Fast? && pool.at[p].size == nb
    case FromSmallBin => nb < MIN_LARGE_SIZE && IsBestFit(pool, p, nb)
    case Remainder =>
      nb < MIN_LARGE_SIZE && p == last && Has(pool, p, Binned(UNSORTED)) && pool.at[p].size > nb + MINSIZE
      && NoneExact(pool, nb)
    case BestFit => IsBestFit(pool, p, nb)
    case FromTop => NoneFits(pool, nb) && (Has(pool, p, Top) || (pool.base == pool.end && p == pool.base))
  }

  function TopSize(a: Arena, top: nat): nat {
    if top in a.at then a.at[top].size else 0
  }

  const PAGESIZE: nat := 4096

  /** What sYSMALLOc asks of sbrk: whole pages, in 32 bits. */
  function SysRequest(nb: nat, topSize: nat): (size: nat)
    requires topSize < nb + MINSIZE
    ensures size < TWO_32
  {
    (nb + MINSIZE - topSize + PAGESIZE - 1) / PAGESIZE * PAGESIZE % TWO_32
  }

  /**
   * The top cannot serve the request, and cannot be extended either: the request is not positive as a
   * long, or memory ends.
   */
  predicate SystemRefuses(a: Arena, top: nat, nb: nat, limit: nat) {
    && TopSize(a, top) < nb + MINSIZE
    && var size := SysRequest(nb, TopSize(a, top));
       size == 0 || size >= 0x8000_0000 || a.end + size > limit
  }

  /** u is x, rounded up to whole pages. */
  predicate WholePages(x: nat, u: nat) {
    u % 0x1000 == 0 && x <= u < x + 0x1000
  }

  /** The end moves by whole pages, a positive long; the first time to the end of a page, if memory lasts. */
  ghost predicate Grown(need: nat, first: bool, end: nat, end': nat, limit: nat) {
    exists d: nat :: WholePages(need, d) && d < 0x8000_0000 && EndsAt(end + d, first, end', limit)
  }

  ghost predicate EndsAt(e: nat, first: bool, end': nat, limit: nat) {
    exists u: nat :: WholePages(e, u) && end' == if first && u <= limit then u else e
  }

  /** Memory is obtained from the system only for a top that is too small, and refused only with empty fastbins too. */
  ghost predicate EndMoved(nb: nat, block: nat, how: Source, pool: Arena, a: Arena, a': Arena, limit: nat) {
    && a.end <= a'.end
    && (a'.end != a.end ==>
          && how == FromTop && block >= 8 && TopSize(pool, block - 8) < nb + MINSIZE
          && Grown(nb + 16 - TopSize(pool, block - 8), a.base == a.end, a.end, a'.end, limit))
    && (a'.end != a.end || how == Refused ==> NoneFast(pool))
  }

  /** No fastbin holds chunks of exactly this size. */
  ghost predicate NoneFastExact(a: Arena, nb: nat) {
    forall p {:trigger a.at[p]} :: p in a.at && a.at[p].status.Fast? ==> a.at[p].size != nb
  }

  ghost predicate TopTooSmall(a: Arena, nb: nat) {
    forall p {:trigger a.at[p]} :: p in a.at && a.at[p].status.Top? ==> a.at[p].size < nb + MINSIZE
  }

  /** Large requests empty the fastbins; small ones only when neither a free chunk nor the top can serve them. */
  ghost predicate EmptiedFor(nb: nat, a: Arena, pool: Arena) {
    pool == a || nb >= MIN_LARGE_SIZE || (NoneFits(a, nb) && TopTooSmall(a, nb))
  }

  /** What is chosen for a request of nb bytes, padded, and what is left alone. */
  ghost predicate Outcome(nb: nat, last: nat, block: nat, how: Source, pool: Arena,
                          m: Memory, a: Arena, m': Memory, a': Arena, last': nat, top': nat, limit: nat) {
    && PoolOf(a, pool) && EmptiedFor(nb, a, pool) && (nb >= MIN_LARGE_SIZE ==> NoneFast(pool))
    && EndMoved(nb, block, how, pool, a, a', limit) && Parted(nb, last, block, how, pool, a', last')
    && if how == Refused
       then block == 0 && Spared(m, a, m', a', NONE) && SamePool(pool, a') && NoneFits(pool, nb)
            && SystemRefuses(a', top', nb, limit)
       else block >= 8 && block % 8 == 0 && Given(m, a, m', a', block - 8)
            && nb <= a'.at[block - 8].size < nb + MINSIZE && Chosen(how, pool, block - 8, nb, last)
            && (how != FromFastbin ==> PrevUsed(a', block - 8))
  }

  /** A free chunk with at least 16 bytes to spare. */
  ghost predicate CanSplit(pool: Arena, p: nat, nb: nat) {
    p in pool.at && pool.at[p].status.Binned? && pool.at[p].size >= nb + 16
  }

  ghost predicate AloneUnsorted(a: Arena, r: nat) {
    forall q :: Has(a, q, Binned(UNSORTED)) ==> q == r
  }

  /**
   * How the chunk is cut, and what becomes of last_remainder: a free chunk with 16 bytes or more to
   * spare is split, and its rest is the only unsorted chunk and, for a request below 256 bytes, the last
   * remainder; other chunks are handed out whole, except that the top keeps its rest.
   */
  ghost predicate Parted(nb: nat, last: nat, block: nat, how: Source, pool: Arena, a': Arena, last': nat) {
    if block < 8 then last' == last
    else
      var p, r := block - 8, block - 8 + nb;
      p in a'.at &&
      if CanSplit(pool, p, nb) then
        && a'.at[p].size == nb && Has(a', r, Binned(UNSORTED)) && a'.at[r].size == pool.at[p].size - nb
        && AloneUnsorted(a', r) && last' == (if nb < 256 then r else last)
      else
        && last' == last
        && (if how == FromTop then a'.at[p].size == nb && Has(a', r, Top)
            else p in pool.at && a'.at[p].size == pool.at[p].size)
  }

  lemma RestIsAlone(s: State, r: nat, size: int)
    requires Sound(s, NONE) && Rest(s.arena, s.rings, s.bins, r, size)
    ensures AloneUnsorted(s.arena, r)
  {
    forall q | Has(s.arena, q, Binned(UNSORTED))
      ensures q == r
    {
      var k := PositionOf(s.mem, s.bins, s.arena, s.rings, q);
    }
  }

  lemma PartedBefore(nb: nat, last: nat, block: nat, how: Source, pool: Arena, a0: Arena, a: Arena, a': Arena,
                     last': nat)
    requires SamePool(a0, a) && Parted(nb, last, block, how, pool, a', last')
    ensures Parted(nb, last, block, how, Unsorted(a0, a, pool), a', last')
  {
    if pool == a && block >= 8 {
      assert block - 8 in a0.at ==> SameChunk(a0, a, block - 8);
    }
  }

  /** The last remainder is at the front of the unsorted list and large enough, and nothing fits exactly. */
  ghost predicate RemainderWaits(a: Arena, rings: seq<seq<nat>>, last: nat, nb: nat) {
    && nb < MIN_LARGE_SIZE && NoneExact(a, nb)
    && |rings| == NBINS && |rings[UNSORTED]| > 1 && rings[UNSORTED][1] == last
    && last in a.at && a.at[last].size > nb + MINSIZE
  }

  /** It is at the front when it is the only unsorted chunk. */
  lemma OnlyIsFirst(s: State, last: nat)
    requires Sound(s, NONE) && Has(s.arena, last, Binned(UNSORTED)) && AloneUnsorted(s.arena, last)
    ensures |s.rings| == NBINS && |s.rings[UNSORTED]| > 1 && s.rings[UNSORTED][1] == last
  {
    var k := PositionOf(s.mem, s.bins, s.arena, s.rings, last);
    RingHead(s, UNSORTED, 1);
    assert Has(s.arena, s.rings[UNSORTED][1], Binned(UNSORTED));
  }

  lemma NothingUnsorted(s: State)
    requires Sound(s, NONE) && |s.rings[UNSORTED]| == 1
    ensures forall q :: !Has(s.arena, q, Binned(UNSORTED))
  {
    forall q
      ensures !Has(s.arena, q, Binned(UNSORTED))
    {
      if Has(s.arena, q, Binned(UNSORTED)) {
        var k := PositionOf(s.mem, s.bins, s.arena, s.rings, q);
      }
    }
  }

  /** A request served at once by a chunk of the heap as it is. */
  lemma ServedOutcome(nb: nat, last: nat, block: nat, how: Source,
                      m: Memory, a: Arena, m': Memory, a': Arena, last': nat, top': nat, limit: nat)
    requires block >= 8 && block % 8 == 0 && a'.end == a.end
    requires how != FromFastbin && Chosen(how, a, block - 8, nb, last)
    requires GivenFree(m, a, m', a', block - 8) && nb <= a'.at[block - 8].size < nb + MINSIZE
    requires (nb >= MIN_LARGE_SIZE ==> NoneFast(a)) && Parted(nb, last, block, how, a, a', last')
    ensures Outcome(nb, last, block, how, a, m, a, m', a', last', top', limit)
  {
  }

  lemma FastOutcome(nb: nat, last: nat, block: nat, m: Memory, a: Arena, a': Arena, top': nat, limit: nat)
    requires block >= 8 && block % 8 == 0 && Chosen(FromFastbin, a, block - 8, nb, last) && nb < MIN_LARGE_SIZE
    requires Given(m, a, m, a', block - 8) && a'.at[block - 8].size == nb && a'.end == a.end
    ensures Outcome(nb, last, block, FromFastbin, a, m, a, m, a', last, top', limit)
  {
  }

  lemma RefusedOutcome(nb: nat, last: nat, m: Memory, a: Arena, top: nat, limit: nat)
    requires Tiling(a) && NoneFits(a, nb) && NoneFast(a) && SystemRefuses(a, top, nb, limit)
    ensures Outcome(nb, last, 0, Refused, a, m, a, m, a, last, top, limit)
  {
    ZeroNotIn(a);
    SamePoolSelf(a);
  }

  /** A request served from the top after it was extended. */
  lemma GrownOutcome(nb: nat, last: nat, block: nat, m: Memory, a: Arena, m': Memory, a': Arena, top': nat, limit: nat,
                     p: nat)
    requires block == p + 8 && block % 8 == 0 && NoneFits(a, nb) && NoneFast(a) && TopSize(a, p) < nb + MINSIZE
    requires if a.base == a.end then p == a.base else Has(a, p, Top)
    requires p in a.at ==> a.at[p].status.Top?
    requires Grown(nb + 16 - TopSize(a, p), a.base == a.end, a.end, a'.end, limit)
    requires GivenFree(m, a, m', a', p) && a'.at[p].size == nb && a.end <= a'.end && Has(a', p + nb, Top)
    ensures Outcome(nb, last, block, FromTop, a, m, a, m', a', last, top', limit)
  {
  }

  /** Emptying the fastbins, or doing nothing, before the search is part of serving the request. */
  lemma OutcomeBefore(nb: nat, last: nat, block: nat, how: Source, pool: Arena,
                      m0: Memory, a0: Arena, m: Memory, a: Arena, m': Memory, a': Arena, last': nat,
                      top': nat, limit: nat)
    requires Outcome(nb, last, block, how, pool, m, a, m', a', last', top', limit)
    requires Spared(m0, a0, m, a, NONE) && PoolOf(a0, a) && EmptiedFor(nb, a0, a) && a0.end == a.end
    ensures Outcome(nb, last, block, how, pool, m0, a0, m', a', last', top', limit)
  {
    if a != a0 {
      ConsolidatedIsFastless(a0, a);
    }
    BeforeLive(how, m0, a0, m, a, m', a', block);
  }

  /** What both parts leave alone. */
  lemma BeforeLive(how: Source, m0: Memory, a0: Arena, m: Memory, a: Arena, m': Memory, a': Arena, block: nat)
    requires Spared(m0, a0, m, a, NONE)
    requires if how == Refused then Spared(m, a, m', a', NONE) else block >= 8 && Given(m, a, m', a', block - 8)
    ensures if how == Refused then Spared(m0, a0, m', a', NONE) else Given(m0, a0, m', a', block - 8)
  {
    if how == Refused {
      SameLiveTwice(a0, a, a', NONE);
      PayloadsTwice(m0, m, m', a0, a, NONE);
    } else {
      SparedThenGiven(m0, a0, m, a, m', a', block - 8);
    }
  }

  /** The pool before the unsorted chunks were put in bins, given the one after. */
  ghost function Unsorted(a0: Arena, a: Arena, pool: Arena): Arena {
    if pool == a then a0 else pool
  }

  /** Sorting chunks into bins before the search is part of serving the request, too. */
  lemma SortedBefore(nb: nat, last: nat, block: nat, how: Source, pool: Arena,
                     m0: Memory, a0: Arena, m: Memory, a: Arena, m': Memory, a': Arena, last': nat,
                     top': nat, limit: nat)
    requires Outcome(nb, last, block, how, pool, m, a, m', a', last', top', limit) && Kept(m0, a0, m, a, NONE)
    requires SamePool(a0, a) && NoNewUnsorted(a0, a)
    ensures Outcome(nb, last, block, how, Unsorted(a0, a, pool), m0, a0, m', a', last', top', limit)
  {
    BeforeLive(how, m0, a0, m, a, m', a', block);
    SamePoolFast(a0, a);
    PartedBefore(nb, last, block, how, pool, a0, a, a', last');
    if pool != a {
      ConsolidatedBefore(nb, a0, a, pool);
    } else if how == Refused {
      SamePoolFits(a0, a, NONE, nb);
      SamePoolTwice(a0, a, a');
    } else {
      ChosenBefore(how, a0, a, block - 8, nb, last);
    }
  }

  lemma ConsolidatedBefore(nb: nat, a0: Arena, a: Arena, pool: Arena)
    requires SamePool(a0, a) && PoolOf(a, pool) && pool != a && EmptiedFor(nb, a, pool) && NONE !in a0.at
    requires NoneFast(a0) <==> NoneFast(a)
    ensures PoolOf(a0, pool) && EmptiedFor(nb, a0, pool)
  {
    SamePoolFits(a0, a, NONE, nb);
    assert forall p :: p in a0.at ==> SameChunk(a0, a, p);
  }

  lemma ChosenBefore(how: Source, a0: Arena, a: Arena, p: nat, nb: nat, last: nat)
    requires SamePool(a0, a) && NoNewUnsorted(a0, a) && Chosen(how, a, p, nb, last)
    ensures Chosen(how, a0, p, nb, last) && TopSize(a0, p) == TopSize(a, p)
  {
    SamePoolFits(a0, a, p, nb);
    SamePoolExact(a0, a, nb);
    assert p in a.at ==> SameChunk(a0, a, p);
  }

  /** A large request leaves no choice of size: two ways to serve it take best fits of one size, or neither does. */
  lemma LargeChoiceIsDetermined(nb: nat, last: nat, m: Memory, a: Arena,
                                block: nat, how: Source, pool: Arena, m': Memory, a': Arena, last': nat,
                                top': nat, limit: nat,
                                block2: nat, how2: Source, pool2: Arena, m2: Memory, a2: Arena, last2: nat,
                                top2: nat, limit2: nat)
    requires nb >= MIN_LARGE_SIZE
    requires Outcome(nb, last, block, how, pool, m, a, m', a', last', top', limit)
    requires Outcome(nb, last, block2, how2, pool2, m, a, m2, a2, last2, top2, limit2)
    ensures how in {BestFit, FromTop, Refused} && (how == BestFit <==> how2 == BestFit)
    ensures how == BestFit ==> block >= 8 && block2 >= 8 && block - 8 in pool.at && block2 - 8 in pool2.at
                               && pool.at[block - 8].size == pool2.at[block2 - 8].size
  {
    FastlessPoolIsUnique(a, pool, pool2);
    FastlessPoolIsUnique(a, pool2, pool);
    SamePoolFits(pool, pool2, NONE, nb);
    SamePoolFits(pool2, pool, NONE, nb);
    if how == BestFit {
      assert SameChunk(pool, pool2, block - 8);
    }
    if how2 == BestFit {
      assert SameChunk(pool2, pool, block2 - 8);
    }
  }
}
