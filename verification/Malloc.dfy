/**
 * malloc, free and malloc_consolidate of shared/malloc.c, over one word-addressed memory. Where the
 * source makes several stores to different words in a row, the order of those stores is not kept.
 */
module Malloc {
  import opened Arithmetic
  import opened BinIndex
  import opened BoundaryTags
  import opened BinLists
  import opened AllocatorState
  import opened AllocatorSteps
  import opened FitSearch

  const CONSOLIDATION_THRESHOLD: nat := 128 * 1024
  const TRIM_THRESHOLD: nat := 256 * 1024

  /** What is promised of a chunk taken from the unsorted list. */
  ghost predicate TakenAs(a: Arena, victim: nat, nb: nat, how: Source, lastRemainder: nat) {
    match how
    case BestFit => IsBestFit(a, victim, nb)
    case Remainder => Chosen(Remainder, a, victim, nb, lastRemainder)
    case _ => false
  }

  lemma TakenBefore(a: Arena, a': Arena, victim: nat, nb: nat, how: Source)
    requires SamePool(a, a') && NoNewUnsorted(a, a')
    ensures forall l :: TakenAs(a', victim, nb, how, l) ==> TakenAs(a, victim, nb, how, l)
  {
    SamePoolFits(a, a', victim, nb);
    SamePoolExact(a, a', nb);
    assert victim in a'.at ==> victim in a.at && SameChunk(a, a', victim);
  }

  /** Unsorted chunks from position n on have been looked at: none of them fits exactly. */
  ghost predicate SortedFrom(a: Arena, rings: seq<seq<nat>>, n: nat, nb: nat) {
    && |rings| == NBINS && 1 <= n <= |rings[UNSORTED]|
    && forall l {:trigger rings[UNSORTED][l]} :: n <= l < |rings[UNSORTED]| ==>
         rings[UNSORTED][l] in a.at && a.at[rings[UNSORTED][l]].size != nb
  }

  /** What the loop over the unsorted list r0 has done when the list is down to `rings`. */
  ghost predicate SortingDown(m0: Memory, a0: Arena, r0: seq<seq<nat>>, m: Memory, a: Arena, rings: seq<seq<nat>>,
    last: nat, nb: nat)
  {
    && SamePool(a0, a) && NoNewUnsorted(a0, a) && Kept(m0, a0, m, a, NONE)
    && |rings| == NBINS && SortedFrom(a0, r0, |rings[UNSORTED]|, nb)
    && rings[UNSORTED] == r0[UNSORTED][..|rings[UNSORTED]|]
    && (RemainderWaits(a0, r0, last, nb) ==> |rings[UNSORTED]| > 1)
  }

  /** The chunk taken is at position k of the unsorted list, and none behind it fits exactly: the oldest goes first. */
  ghost predicate OldestExact(a: Arena, rings: seq<seq<nat>>, k: nat, victim: nat, nb: nat, how: Source) {
    && SortedFrom(a, rings, k + 1, nb) && k >= 1 && rings[UNSORTED][k] == victim && victim in a.at
    && (how == BestFit ==> a.at[victim].size == nb)
    && (how == Remainder ==> k == 1)
  }

  /** The last chunk of the list, sorted down from r0, has been taken. */
  lemma TurnTaken(m0: Memory, a0: Arena, r0: seq<seq<nat>>, m: Memory, a: Arena, rings: seq<seq<nat>>,
    m': Memory, a': Arena, victim: nat, nb: nat, how: Source, last: nat, last': nat)
    requires SortingDown(m0, a0, r0, m, a, rings, last, nb) && |rings[UNSORTED]| >= 2
    requires victim == rings[UNSORTED][|rings[UNSORTED]| - 1] && victim in a.at
    requires GivenFree(m, a, m', a', victim) && TakenAs(a, victim, nb, how, last)
    requires Parted(nb, last, victim + 8, how, a, a', last')
    requires how != Remainder ==> a.at[victim].size == nb
    requires how == Remainder <==>
      |rings[UNSORTED]| == 2 && victim == last && nb < MIN_LARGE_SIZE && a.at[victim].size > nb + MINSIZE
    ensures GivenFree(m0, a0, m', a', victim) && TakenAs(a0, victim, nb, how, last)
    ensures Parted(nb, last, victim + 8, how, a0, a', last')
    ensures exists k :: OldestExact(a0, r0, k, victim, nb, how)
    ensures how == Remainder <==> RemainderWaits(a0, r0, last, nb)
  {
    SparedThenGiven(m0, a0, m, a, m', a', victim);
    TakenBefore(a0, a, victim, nb, how);
    PartedBefore(nb, last, victim + 8, how, a, a0, a, a', last');
    assert SameChunk(a0, a, victim);
    assert OldestExact(a0, r0, |rings[UNSORTED]| - 1, victim, nb, how);
  }

  /** It has been put in its bin: the last remainder is yet to come. */
  lemma TurnSorted(m0: Memory, a0: Arena, r0: seq<seq<nat>>, m: Memory, a: Arena, rings: seq<seq<nat>>,
    m': Memory, a': Arena, rings': seq<seq<nat>>, victim: nat, nb: nat, last: nat)
    requires SortingDown(m0, a0, r0, m, a, rings, last, nb) && |rings[UNSORTED]| >= 2
    requires victim == rings[UNSORTED][|rings[UNSORTED]| - 1] && victim in a.at && a.at[victim].size != nb
    requires !(|rings[UNSORTED]| == 2 && victim == last && nb < MIN_LARGE_SIZE && a.at[victim].size > nb + MINSIZE)
    requires SamePool(a, a') && NoNewUnsorted(a, a') && Kept(m, a, m', a', NONE)
    requires |rings'| == NBINS && rings'[UNSORTED] == rings[UNSORTED][..|rings[UNSORTED]| - 1]
    ensures SortingDown(m0, a0, r0, m', a', rings', last, nb)
  {
    KeptAgain(m0, a0, m, a, m', a', NONE);
    SamePoolTwice(a0, a, a');
    assert SameChunk(a0, a, victim);
  }

  /** What follows a merge: chunks of 128K and more make the fastbins be emptied, smaller ones nothing. */
  ghost predicate AfterFree(mid: Arena, c: nat, a: Arena, rings: seq<seq<nat>>) {
    && c in mid.at
    && (mid.at[c].size >= 0x2_0000 ==> Consolidated(mid, a))
    && (mid.at[c].size < 0x2_0000 ==> a == mid && FreshlyFree(a, rings, c))
  }

  /** Only chunk p has changed hands: it is the first of the fastbin of its size. */
  ghost predicate InFastbin(a: Arena, a': Arena, fasts: seq<seq<nat>>, fasts': seq<seq<nat>>, p: nat, size: nat) {
    && size <= 72 && 2 <= size / 8 < |fasts| + 2 && p in a.at
    && a' == WithStatus(a, p, Fast(size / 8 - 2)) && fasts' == fasts[size / 8 - 2 := [p] + fasts[size / 8 - 2]]
  }

  /** The chunk is at the front of the unsorted list, or it is the top. */
  ghost predicate FreshlyFree(a: Arena, rings: seq<seq<nat>>, c: nat) {
    || Has(a, c, Top)
    || (Has(a, c, Binned(UNSORTED)) && |rings| == NBINS && |rings[UNSORTED]| > 1 && rings[UNSORTED][1] == c)
  }

  /** The small bin of a small request is empty. */
  ghost predicate SmallBinEmpty(rings: seq<seq<nat>>, nb: nat) {
    nb < MIN_LARGE_SIZE ==> nb / 8 < |rings| && |rings[nb / 8]| == 1
  }

  /** The chunk at position k of bin i, behind which none of that bin is large enough: of equal ones the oldest. */
  ghost predicate LastThatFits(a: Arena, rings: seq<seq<nat>>, i: nat, k: nat, victim: nat, nb: nat) {
    && 2 <= i < |rings| && 1 <= k < |rings[i]| && rings[i][k] == victim
    && forall l {:trigger rings[i][l]} :: k < l < |rings[i]| && rings[i][l] in a.at ==> a.at[rings[i][l]].size < nb
  }

  lemma CarvedParts(a: Arena, s': State, victim: nat, nb: nat, split: bool, last: nat, last': nat)
    requires Sound(s', NONE) && victim in a.at && a.at[victim].status.Binned? && victim in s'.arena.at
    requires split <==> a.at[victim].size >= nb + MINSIZE
    requires if split
      then s'.arena.at[victim].size == nb && Rest(s'.arena, s'.rings, s'.bins, victim + nb, a.at[victim].size - nb)
      else s'.arena.at[victim].size == a.at[victim].size
    requires last' == if split && nb < MIN_LARGE_SIZE then victim + nb else last
    ensures Parted(nb, last, victim + 8, BestFit, a, s'.arena, last')
  {
    if split {
      RestIsAlone(s', victim + nb, a.at[victim].size - nb);
    }
  }

  /** The bin that holds chunks of exactly this size is not empty. */
  ghost predicate SmallBinHas(rings: seq<seq<nat>>, nb: nat) {
    nb < MIN_LARGE_SIZE && |rings| == NBINS && |rings[nb / 8]| > 1
  }

  /** The last chunk of that bin. */
  ghost predicate Oldest(rings: seq<seq<nat>>, nb: nat, p: int) {
    nb / 8 < |rings| && rings[nb / 8] != [] && rings[nb / 8][|rings[nb / 8]| - 1] == p
  }

  /**
   * Which of the exact and remembered chunks comes first, told from the heap before the request: a
   * fastbin of that size, by its newest chunk; then a small bin, by its oldest; then the last remainder.
   */
  ghost predicate FirstChoices(nb: nat, last: nat, block: nat, how: Source, pool: Arena, a: Arena, rings: seq<seq<nat>>,
    fastbins: seq<nat>)
  {
    && (how == FromFastbin <==> !NoneFastExact(a, nb))
    && (how == FromFastbin ==> pool == a && 2 <= nb / 8 < |fastbins| + 2 && block - 8 == fastbins[nb / 8 - 2])
    && (NoneFastExact(a, nb) && SmallBinHas(rings, nb) ==>
          how == FromSmallBin && pool == a && Oldest(rings, nb, block - 8))
    && (how == Remainder && pool == a <==> NoneFastExact(a, nb) && RemainderWaits(a, rings, last, nb))
    && (how == Remainder ==> block - 8 == last)
  }

  /** A chunk taken as last remainder after the unsorted list was emptied is one of the consolidated heap. */
  lemma NotAtOnce(a0: Arena, a: Arena, pool: Arena, how: Source)
    requires PoolOf(a, pool) && (NoneFast(a0) <==> NoneFast(a)) && (how == Remainder ==> pool != a)
    ensures how == Remainder ==> Unsorted(a0, a, pool) != a0
  {
    if pool != a {
      ConsolidatedIsFastless(a, pool);
    }
  }

  /** Without any listed chunk the bins are empty. */
  lemma BinsEmpty(s: State, nb: nat, last: nat)
    requires Sound(s, NONE) && NoneListed(s.arena) && nb % 8 == 0 && MINSIZE <= nb
    ensures !SmallBinHas(s.rings, nb) && !RemainderWaits(s.arena, s.rings, last, nb)
    ensures NoneFastExact(s.arena, nb)
  {
    if |s.rings[UNSORTED]| > 1 {
      RingHead(s, UNSORTED, 1);
    }
    if SmallBinHas(s.rings, nb) {
      RingHead(s, nb / 8, 1);
    }
  }

  ghost predicate AllAbove(a: Arena, r: seq<nat>, n: nat, size: nat) {
    forall l {:trigger r[l]} :: 1 <= l < n && l < |r| ==> r[l] in a.at && a.at[r[l]].size > size
  }

  /**
   * The place of a chunk in a large bin: at the end if it is not larger than the last one, else after the
   * larger ones and before those of its size.
   */
  ghost predicate PlaceOf(a: Arena, r: seq<nat>, k: nat, size: nat) {
    k < |r| &&
    if |r| > 1 && r[|r| - 1] in a.at && size <= a.at[r[|r| - 1]].size then k == |r| - 1
    else AllAbove(a, r, k + 1, size) && (k + 1 < |r| ==> r[k + 1] in a.at && a.at[r[k + 1]].size <= size)
  }

  /** Into a small bin a chunk goes at the front. */
  ghost predicate BinnedAt(a: Arena, rings: seq<seq<nat>>, rings': seq<seq<nat>>, k: nat, p: nat, size: nat)
    requires size >= MINSIZE
  {
    var i := Index(size);
    && i < |rings| == |rings'| && k < |rings[i]| && rings'[i] == With(rings[i], k, p)
    && (if size < 256 then k == 0 else PlaceOf(a, rings[i], k, size))
  }

  /** The outcome of a request that a chunk of the unsorted list serves. */
  lemma TakenOutcome(nb: nat, last: nat, victim: nat, how: Source, s: State, m': Memory, a': Arena, last': nat,
    top': nat, limit: nat)
    requires Sound(s, NONE) && TakenAs(s.arena, victim, nb, how, last) && a'.end == s.arena.end && victim in a'.at
    requires GivenFree(s.mem, s.arena, m', a', victim) && a'.at[victim].size == nb
    requires (nb >= MIN_LARGE_SIZE ==> NoneFast(s.arena)) && Parted(nb, last, victim + 8, how, s.arena, a', last')
    ensures Outcome(nb, last, victim + 8, how, s.arena, s.mem, s.arena, m', a', last', top', limit)
    ensures how != FromFastbin
  {
    AlignedAt(s, victim);
    ServedOutcome(nb, last, victim + 8, how, s.mem, s.arena, m', a', last', top', limit);
  }

  /** With an empty unsorted list the last remainder is not taken from the heap as it is. */
  lemma NotRemainder(s: State, nb: nat, last: nat, block: nat, how: Source, pool: Arena, m': Memory, a': Arena,
    last': nat, top': nat, limit: nat)
    requires Sound(s, NONE) && |s.rings[UNSORTED]| == 1
    requires Outcome(nb, last, block, how, pool, s.mem, s.arena, m', a', last', top', limit)
    ensures how == Remainder ==> pool != s.arena
  {
    NothingUnsorted(s);
  }

  /** Without chunks in fastbins none is taken from there. */
  lemma NotFromFastbin(nb: nat, last: nat, block: nat, how: Source, pool: Arena, m: Memory, a: Arena, m': Memory,
    a': Arena, last': nat, top': nat, limit: nat)
    requires Outcome(nb, last, block, how, pool, m, a, m', a', last', top', limit) && NoneFast(a)
    ensures how != FromFastbin
  {
  }


  lemma AlignedAt(s: State, p: nat)
    requires Sound(s, NONE) && p in s.arena.at
    ensures p % 8 == 0 && (p + 8) % 8 == 0
  {
    assert Aligned(s.arena, p);
  }

  lemma TopHead(s: State)
    requires Sound(s, NONE)
    ensures SizeOf(Head(s.mem, s.top)) == TopSize(s.arena, s.top)
    ensures s.top in s.arena.at ==> Has(s.arena, s.top, Top)
  {
    ZeroNotIn(s.arena);
    if s.top in s.arena.at {
      HeadOf(s, NONE, s.top);
    }
  }

  lemma TopIsTooSmall(s: State, nb: nat)
    requires Sound(s, NONE) && TopSize(s.arena, s.top) < nb + MINSIZE
    ensures TopTooSmall(s.arena, nb)
  {
  }

  /** The fastbin of a request: the flags in max_fast do not matter. */
  lemma FastRequest(nb: nat, mf: nat)
    requires nb % 8 == 0 && MINSIZE <= nb <= mf < MAX_FAST + 4
    ensures 0 <= nb / 8 - 2 <= 7 && nb == 8 * (nb / 8 - 2) + 16
  {
  }

  /** Chunks of one size are in one fastbin, and large chunks in none. */
  lemma FastsOfSize(s: State, nb: nat)
    requires Sound(s, NONE) && nb % 8 == 0 && nb >= MINSIZE
    ensures nb > MAX_FAST || s.heads[nb / 8 - 2] == 0 ==> NoneFastExact(s.arena, nb)
  {
    forall p | p in s.arena.at && s.arena.at[p].status.Fast? && s.arena.at[p].size == nb
      ensures nb <= MAX_FAST && s.heads[nb / 8 - 2] != 0
    {
      var j := s.arena.at[p].status.index;
      assert InFast(s.fasts, p, j) && FastOk(s.mem, s.arena, j, s.heads[j], s.fasts[j]);
      var k :| 0 <= k < |s.fasts[j]| && s.fasts[j][k] == p;
      assert FastMember(s.arena, s.fasts[j][k], j) && FastMember(s.arena, s.fasts[j][0], j);
      assert nb / 8 - 2 == j;
      ZeroNotIn(s.arena);
    }
  }

  /** Listed chunks are the same: so are the flags. */
  lemma SameFlags(a: Arena, a': Arena, mf: nat)
    requires FlagsOk(mf, a) && SameBinned(a, a') && SameFast(a, a')
    ensures FlagsOk(mf, a')
  {
  }

  lemma SmallBinFits(s: State, nb: nat)
    requires Sound(s, NONE) && MINSIZE <= nb < MIN_LARGE_SIZE && nb % 8 == 0
    requires |s.rings[nb / 8]| >= 1 && s.rings[nb / 8][|s.rings[nb / 8]| - 1] != Header(s.bins, nb / 8)
    ensures var r := s.rings[nb / 8];
      |r| > 1 && r[|r| - 1] in s.arena.at && s.arena.at[r[|r| - 1]].size == nb && IsBestFit(s.arena, r[|r| - 1], nb)
  {
    var i := nb / 8;
    var r := s.rings[i];
    IndexInRange(nb);
    BinHeader(s, i);
    RingHead(s, i, |r| - 1);
    assert BinSized(s.arena, i, r) && SizedFor(s.arena, r[|r| - 1], i);
    assert ChunkOk(s.arena, r[|r| - 1]) && Aligned(s.arena, r[|r| - 1]);
    SmallBinsAreExact(nb, s.arena.at[r[|r| - 1]].size);
    ExactIsBest(s.arena, r[|r| - 1], nb);
  }

  /** The break is at the end of the top, unless there is no top yet. */
  lemma GrownOnce(s: State)
    requires Sound(s, NONE) && s.arena.end == s.top + TopSize(s.arena, s.top)
    ensures s.top in s.arena.at && s.arena.base != s.arena.end && Has(s.arena, s.top, Top)
  {
    assert s.top in s.arena.at ==> ChunkOk(s.arena, s.top);
  }

  lemma FirstTime(s: State)
    requires Sound(s, NONE) && s.arena.end != s.top + TopSize(s.arena, s.top)
    ensures s.top == s.bins && s.arena.base == s.arena.end && TopSize(s.arena, s.top) == 0
      && s.arena.base !in s.arena.at
  {
  }

  /** The end of the page that an address is in, or the address itself when it is the end of one. */
  function PageUp(x: nat): (y: nat)
  {
    (x + PAGESIZE - 1) / PAGESIZE * PAGESIZE
  }

  lemma PageEnd(start: nat, size: nat)
    requires start % 8 == 0 && size % 8 == 0
    ensures PageUp(start + size) >= start + size
    ensures (PageUp(start + size) - start) % 8 == 0
  {
    var q, s, z := (start + size + PAGESIZE - 1) / PAGESIZE, start / 8, size / 8;
    assert PageUp(start + size) == 4096 * q;
    assert start + size + 4095 == 4096 * q + (start + size + 4095) % 4096;
    assert 4096 * q - start == 8 * (512 * q - s);
    DivModUnique(4096 * q - start, 8, 512 * q - s, 0);
  }

  lemma SystemGrows(nb: nat, topSize: nat, first: bool, end: nat, e: nat, limit: nat)
    requires topSize < nb + MINSIZE && nb + MINSIZE < TWO_32 && SysRequest(nb, topSize) > 0
    requires e == end + SysRequest(nb, topSize)
    requires SysRequest(nb, topSize) < 0x8000_0000
    ensures Grown(nb + 16 - topSize, first, end, if first && PageUp(e) <= limit then PageUp(e) else e, limit)
  {
    var d := SysRequest(nb, topSize);
    RequestCovers(nb, topSize);
    RoundedUp(nb + MINSIZE - topSize);
    RoundedUp(e);
    assert WholePages(nb + 16 - topSize, d) && WholePages(e, PageUp(e));
    assert EndsAt(e, first, if first && PageUp(e) <= limit then PageUp(e) else e, limit);
  }

  lemma RoundedUp(x: nat)
    ensures WholePages(x, PageUp(x))
  {
    var q := (x + 4095) / 4096;
    assert PageUp(x) == 4096 * q && x + 4095 == 4096 * q + (x + 4095) % 4096;
    DivModUnique(4096 * q, 4096, q, 0);
  }

  /** Nothing but the top has changed, and it is large enough now. */
  ghost predicate ToppedUp(nb: nat, m0: Memory, a0: Arena, m: Memory, a: Arena, top: nat, limit: nat) {
    && Spared(m0, a0, m, a, NONE) && top in a.at && a.at[top].size >= nb + MINSIZE && a0.end <= a.end
    && (if a0.base == a0.end then top == a0.base else Has(a0, top, Top))
    && (top in a0.at ==> Has(a0, top, Top)) && TopSize(a0, top) < nb + MINSIZE
    && Grown(nb + 16 - TopSize(a0, top), a0.base == a0.end, a0.end, a.end, limit)
  }

  lemma ToppedUpOutcome(nb: nat, last: nat, m0: Memory, a0: Arena, m: Memory, a: Arena, m': Memory, a': Arena,
    top': nat, limit: nat, p: nat)
    requires ToppedUp(nb, m0, a0, m, a, p, limit) && NoneFits(a0, nb) && NoneFast(a0) && (p + 8) % 8 == 0
    requires GivenFree(m, a, m', a', p) && a'.at[p].size == nb && a'.end == a.end && Has(a', p + nb, Top)
    ensures Outcome(nb, last, p + 8, FromTop, a0, m0, a0, m', a', last, top', limit)
  {
    SparedThenGiven(m0, a0, m, a, m', a', p);
    GrownOutcome(nb, last, p + 8, m0, a0, m', a', top', limit, p);
  }

  /** What is asked of the system is enough. */
  lemma RequestCovers(nb: nat, topSize: nat)
    requires topSize < nb + MINSIZE && nb + MINSIZE < TWO_32 && SysRequest(nb, topSize) > 0
    ensures SysRequest(nb, topSize) % PAGESIZE == 0 && SysRequest(nb, topSize) % 8 == 0
    ensures SysRequest(nb, topSize) + topSize >= nb + MINSIZE
    ensures SysRequest(nb, topSize) == PageUp(nb + MINSIZE - topSize)
  {
    var q := (nb + MINSIZE - topSize + PAGESIZE - 1) / PAGESIZE;
    PagesFit(nb + MINSIZE - topSize, q);
    assert SysRequest(nb, topSize) == q * PAGESIZE % TWO_32;
  }

  lemma PagesFit(x: nat, q: nat)
    requires x < TWO_32 && q == (x + PAGESIZE - 1) / PAGESIZE
    ensures x <= q * PAGESIZE <= TWO_32 && q * PAGESIZE % PAGESIZE == 0 && q * PAGESIZE % 8 == 0
    ensures q * PAGESIZE % TWO_32 > 0 ==> q * PAGESIZE % TWO_32 == q * PAGESIZE
  {
    DivBounds(x + 4095, 4096, 0, 0x10_0001);
    assert x + 4095 == 4096 * q + (x + 4095) % 4096;
    PageMultiples(q);
  }

  lemma PageMultiples(q: nat)
    requires q <= 0x10_0000
    ensures q * PAGESIZE <= TWO_32 && q * PAGESIZE % PAGESIZE == 0 && q * PAGESIZE % 8 == 0
    ensures q * PAGESIZE % TWO_32 == if q == 0x10_0000 then 0 else q * PAGESIZE
  {
    DivModUnique(q * PAGESIZE, PAGESIZE, q, 0);
    DivModUnique(q * PAGESIZE, 8, 512 * q, 0);
    DivModUnique(q * PAGESIZE, TWO_32, q / 0x10_0000, q % 0x10_0000 * PAGESIZE);
  }

  function Zeros(n: nat): seq<nat> {
    seq(n, _ => 0)
  }

  function NoLists(n: nat): seq<seq<nat>> {
    seq(n, _ => [])
  }

  predicate SelfLinked(m: Memory, bins: nat, i: nat)
    requires i >= 1
  {
    Fd(m, Header(bins, i)) == Header(bins, i) && Bk(m, Header(bins, i)) == Header(bins, i)
  }

  ghost predicate AllSelfLinked(m: Memory, bins: nat, n: nat) {
    forall j {:trigger SelfLinked(m, bins, j)} :: 1 <= j < n ==> SelfLinked(m, bins, j)
  }

  lemma LinkHeader(m: Memory, bins: nat, i: nat)
    requires 1 <= i && AllSelfLinked(m, bins, i) && Word(m, bins + 4) == 0
    ensures var m' := SetFd(SetBk(m, Header(bins, i), Header(bins, i)), Header(bins, i), Header(bins, i));
      AllSelfLinked(m', bins, i + 1) && Word(m', bins + 4) == 0
  {
    var m' := SetFd(SetBk(m, Header(bins, i), Header(bins, i)), Header(bins, i), Header(bins, i));
    forall j | 1 <= j <= i
      ensures SelfLinked(m', bins, j)
    {
      assert j < i ==> SelfLinked(m, bins, j);
    }
  }

  function HeaderRings(bins: nat): seq<seq<nat>> {
    seq(NBINS, i => if i <= 0 then [] else [Header(bins, i)])
  }

  /** The state after initialisation, before any memory has been obtained. */
  lemma EmptyLists(s: State)
    requires s.arena.at == map[] && s.arena.base == s.arena.end && s.arena.base > 0
      && s.bins + 8 * NBINS <= s.arena.base
    requires AllSelfLinked(s.mem, s.bins, NBINS)
    requires s.rings == HeaderRings(s.bins) && s.heads == Zeros(NFASTBINS) && s.fasts == NoLists(NFASTBINS)
      && s.binmap == Zeros(4)
    requires s.top == s.bins && Word(s.mem, s.bins + 4) == 0
    ensures Sound(s, NONE) && OnlyLoose(s.arena, NONE) && NoneListed(s.arena)
  {
    forall i | 1 <= i < NBINS
      ensures BinOk(s.mem, s.bins, s.arena, i, s.rings[i])
    {
      assert SelfLinked(s.mem, s.bins, i);
      assert s.rings[i] == [Header(s.bins, i)];
      assert Linked(s.mem, s.rings[i], 0);
    }
    forall i | 2 <= i < NBINS
      ensures BinSized(s.arena, i, s.rings[i]) && |s.rings[i]| == 1
    {
      assert s.rings[i] == [Header(s.bins, i)];
    }
    forall j | 0 <= j < NFASTBINS
      ensures FastOk(s.mem, s.arena, j, s.heads[j], s.fasts[j])
    {
    }
  }

  class Allocator {
    const bins: nat            // address of the bin headers
    const limit: nat           // end of the memory that sbrk can give

    var mem: Memory
    var fastbins: seq<nat>
    var top: nat
    var lastRemainder: nat
    var binmap: seq<nat>
    var maxFast: nat           // 0 until the first call
    var brk: nat

    ghost var arena: Arena
    ghost var rings: seq<seq<nat>>
    ghost var fasts: seq<seq<nat>>

    ghost function Now(heads: seq<nat>): State
      reads this
    {
      State(mem, bins, arena, rings, heads, fasts, binmap, top)
    }

    ghost predicate Ready()
      reads this
    {
      && Sound(Now(fastbins), NONE) && OnlyLoose(arena, NONE) && FlagsOk(maxFast, arena)
      && arena.base % 8 == 0 && brk == arena.end && brk <= limit < TWO_32
    }

    /** malloc_state as the loader leaves it: all zeroes. */
    ghost predicate Fresh()
      reads this
    {
      && maxFast == 0 && mem == map[] && fastbins == Zeros(NFASTBINS) && binmap == Zeros(4) && top == 0
      && rings == NoLists(NBINS)
      && arena == Arena(brk, brk, map[]) && fasts == NoLists(NFASTBINS)
      && brk % 8 == 0 && 0 < brk <= limit < TWO_32 && bins + 8 * NBINS <= brk
    }

    ghost predicate Valid()
      reads this
    {
      Fresh() || Ready()
    }

    lemma ZeroFree()
      requires Valid()
      ensures NONE !in arena.at && Tiling(arena)
    {
      if Ready() {
        ZeroNotIn(arena);
      }
    }

    /** The heap of sbrk is [start, end), above the variables of the allocator. */
    constructor (bins: nat, start: nat, end: nat)
      requires bins + 8 * NBINS <= start <= end < TWO_32 && start % 8 == 0
      ensures Fresh() && this.bins == bins && limit == end && brk == start
    {
      this.bins, limit := bins, end;
      mem, fastbins, top, lastRemainder, binmap, maxFast, brk := map[], Zeros(NFASTBINS), 0, 0, Zeros(4), 0, start;
      arena, rings, fasts := Arena(start, start, map[]), NoLists(NBINS), NoLists(NFASTBINS);
    }

    /** Every bin header is linked to itself: all rings are empty. */
    method LinkHeaders()
      requires Word(mem, bins + 4) == 0
      modifies this`mem
      ensures AllSelfLinked(mem, bins, NBINS) && Word(mem, bins + 4) == 0
    {
      var i := 1;
      while i < NBINS
        invariant 1 <= i <= NBINS && AllSelfLinked(mem, bins, i) && Word(mem, bins + 4) == 0
      {
        LinkHeader(mem, bins, i);
        var bin := Header(bins, i);
        mem := SetBk(mem, bin, bin);
        mem := SetFd(mem, bin, bin);
        i := i + 1;
      }
    }

    /** malloc_init_state: every bin becomes a ring of its header alone; the top is the header of the unsorted list. */
    method InitState()
      requires Fresh()
      modifies this`mem, this`top, this`maxFast, this`rings
      ensures Ready() && arena == old(arena) && !HaveAny(maxFast) && !HaveFast(maxFast)
    {
      LinkHeaders();
      maxFast := MAX_FAST;
      top := Header(bins, UNSORTED);
      rings := HeaderRings(bins);
      EmptyLists(Now(fastbins));
    }

    // -------------------------------------------------------------- lists

    /** unlink, and its variants for the last chunk of a bin. */
    method Unlink(p: nat, ghost heads: seq<nat>, ghost x: nat, ghost i: nat, ghost k: nat)
      requires Sound(Now(heads), x) && 1 <= i < NBINS && 1 <= k < |rings[i]| && rings[i][k] == p && p in arena.at
      modifies this`mem, this`arena, this`rings
      ensures mem == Unlinked(old(mem), Bk(old(mem), p), Fd(old(mem), p))
      ensures arena == WithStatus(old(arena), p, Loose) && rings == old(rings)[i := Without(old(rings)[i], k)]
      ensures Sound(Now(heads), x)
      ensures PayloadsKept(old(mem), mem, old(arena), NONE) && TagsKept(old(mem), mem, old(arena))
    {
      UnlinkSound(Now(heads), x, p, i, k);
      var fwd, bck := Fd(mem, p), Bk(mem, p);
      mem := SetBk(mem, fwd, bck);
      mem := SetFd(mem, bck, fwd);
      arena := WithStatus(arena, p, Loose);
      rings := rings[i := Without(rings[i], k)];
    }

    /** Link chunk p into its ring between two neighbours. */
    method Insert(p: nat, bck: nat, fwd: nat, ghost heads: seq<nat>, ghost i: nat, ghost k: nat)
      requires Sound(Now(heads), NONE) && Has(arena, p, Loose) && 1 <= i < NBINS && k < |rings[i]|
      requires i != UNSORTED ==> Place(Now(heads), p, i, k)
      requires bck == rings[i][k] && fwd == After(rings[i], k)
      modifies this`mem, this`arena, this`rings
      ensures mem == Inserted(old(mem), p, bck, fwd)
      ensures arena == WithStatus(old(arena), p, Binned(i)) && rings == old(rings)[i := With(old(rings)[i], k, p)]
      ensures Sound(Now(heads), NONE)
      ensures PayloadsKept(old(mem), mem, old(arena), NONE)
    {
      InsertSound(Now(heads), NONE, p, i, k);
      mem := SetBk(mem, p, bck);
      mem := SetFd(mem, p, fwd);
      mem := SetBk(mem, fwd, p);
      mem := SetFd(mem, bck, p);
      arena := WithStatus(arena, p, Binned(i));
      rings := rings[i := With(rings[i], k, p)];
    }

    // -------------------------------------------------------------- taking a chunk back

    /** Consolidate backward. */
    method MergeBack(p: nat, size: nat, ghost heads: seq<nat>) returns (c: nat, total: nat)
      requires Sound(Now(heads), NONE) && OnlyLoose(arena, NONE) && Has(arena, p, InUse) && size == arena.at[p].size
      modifies this`mem, this`arena, this`rings
      ensures c <= p && Taken(Now(heads), c)
      ensures arena.at[c].size == total && Next(arena, c) == p + size
      ensures Kept(old(mem), old(arena), mem, arena, p)
    {
      c, total := p, size;
      ghost var s := Now(heads);
      ZeroNotIn(arena);
      HeadOf(s, NONE, p);
      if Head(mem, p) % 2 == 1 {
        TakenAlone(s, p);
        arena := WithStatus(arena, p, Loose);
      } else {
        PrevFree(s, p);
        TakeBackSound(s, p);
        arena := WithStatus(arena, p, Loose);
        total := size + Foot(mem, p);
        c := p - Foot(mem, p);
        ghost var q := s.arena.at[p].before;
        assert c == q;
        ghost var k := PositionOf(mem, bins, arena, rings, q);
        Unlink(c, heads, p, arena.at[q].status.bin, k);
        TakenWithPrev(s, p, q, Now(heads));
        KeptWithPrev(s.mem, mem, s.arena, p, q);
        assert Next(arena, q) == p;
        arena := Merged(arena, q);
      }
    }

    /** Clear the use bit of the chunk after c, and consolidate forward. */
    method MergeForward(c: nat, next: nat, total: nat, ghost heads: seq<nat>) returns (size: nat)
      requires Taken(Now(heads), c) && arena.at[c].size == total && next == Next(arena, c) && next != top
      modifies this`mem, this`arena, this`rings
      ensures Taken(Now(heads), c) && arena.at[c].size == size && total <= size
      ensures Next(arena, c) in arena.at && Used(arena.at[Next(arena, c)].status)
      ensures Head(mem, Next(arena, c)) == arena.at[Next(arena, c)].size
      ensures Kept(old(mem), old(arena), mem, arena, NONE)
    {
      size := total;
      ghost var s := Now(heads);
      NextChunk(s, c);
      ghost var nn := Next(arena, next);
      var nextsize := SizeOf(Head(mem, next));
      var nextinuse := Head(mem, next + nextsize) % 2 == 1;
      ForwardCleared(s, c);
      mem := ClearUse(mem, next, nextsize);
      ghost var s1 := Now(heads);
      ZeroNotIn(arena);
      if !nextinuse {
        AbsorbNext(c, next, heads);
        size := size + nextsize;
        KeptAgain(s.mem, s.arena, s1.mem, s1.arena, mem, arena, NONE);
      }
    }

    /** The free chunk after c is unlinked and becomes part of it. */
    method AbsorbNext(c: nat, next: nat, ghost heads: seq<nat>)
      requires Taken(Now(heads), c) && next == Next(arena, c) && next in arena.at && arena.at[next].status.Binned?
      requires Next(arena, next) in arena.at
      modifies this`mem, this`arena, this`rings
      ensures Taken(Now(heads), c) && arena.at[c].size == old(arena).at[c].size + old(arena).at[next].size
      ensures var nn := Next(old(arena), next);
        && Next(arena, c) == nn && nn in arena.at && arena.at[nn].status == old(arena).at[nn].status
        && arena.at[nn].size == old(arena).at[nn].size && Head(mem, nn) == Head(old(mem), nn)
      ensures Kept(old(mem), old(arena), mem, arena, NONE)
    {
      ghost var s, nn := Now(heads), Next(arena, next);
      ZeroNotIn(arena);
      ghost var k := PositionOf(mem, bins, arena, rings, next);
      Unlink(next, heads, c, arena.at[next].status.bin, k);
      assert TagKept(s.mem, mem, s.arena, nn);
      ForwardMerged(s, c, Now(heads));
      ForwardSame(s.arena, c);
      arena := Merged(arena, c);
    }

    /** Put the chunk at the front of the unsorted list, and tag it. */
    method PlaceUnsorted(c: nat, size: nat, ghost heads: seq<nat>)
      requires Taken(Now(heads), c) && arena.at[c].size == size && Next(arena, c) in arena.at
      requires Used(arena.at[Next(arena, c)].status) && Head(mem, Next(arena, c)) == arena.at[Next(arena, c)].size
      modifies this`mem, this`arena, this`rings
      ensures Sound(Now(heads), NONE) && OnlyLoose(arena, NONE)
      ensures arena == WithStatus(old(arena), c, Binned(UNSORTED)) && Kept(old(mem), old(arena), mem, arena, NONE)
      ensures |rings| == NBINS && |rings[UNSORTED]| > 1 && rings[UNSORTED][1] == c
    {
      ghost var s := Now(heads);
      TagsFinished(s, c);
      mem := SetHead(mem, c, size);
      mem := SetFoot(mem, c, size);
      ghost var s1 := Now(heads);
      UnsortedHeader(s1, NONE);
      var bck := Header(bins, UNSORTED);
      var fwd := Fd(mem, bck);
      Insert(c, bck, fwd, heads, UNSORTED, 0);
      ZeroNotIn(s.arena);
      PayloadsTwice(s.mem, s1.mem, mem, s.arena, s.arena, NONE);
      StatusKept(s.mem, mem, s.arena, c, Binned(UNSORTED));
    }

    /** The chunk borders the top and becomes part of it. */
    method MergeIntoTop(c: nat, total: nat, ghost heads: seq<nat>) returns (size: nat)
      requires Taken(Now(heads), c) && arena.at[c].size == total && Next(arena, c) == top
      modifies this`mem, this`arena, this`top
      ensures Sound(Now(heads), NONE) && OnlyLoose(arena, NONE)
      ensures Has(arena, c, Top) && arena.at[c].size == size && total <= size
      ensures Kept(old(mem), old(arena), mem, arena, NONE)
    {
      ghost var s := Now(heads);
      LooseIsNotTop(s, c, c);
      MergeTopSound(s, c);
      HeadOf(s, c, top);
      size := total + SizeOf(Head(mem, top));
      mem := SetHead(mem, c, size);
      ZeroNotIn(s.arena);
      MergedTiling(s.arena, c);
      ghost var merged := Merged(s.arena, c);
      assert merged.at[c].size == size;
      NoLooseTop(s, c);
      arena := WithStatus(merged, c, Top);
      top := c;
      assert Now(heads) == MergeTopStep(s, c);
      ZeroNotIn(arena);
    }

    /** The part of free and malloc_consolidate that takes chunk p back, merging it with free neighbours. */
    method Coalesce(p: nat, ghost heads: seq<nat>) returns (size: nat, ghost c: nat)
      requires Sound(Now(heads), NONE) && OnlyLoose(arena, NONE) && Has(arena, p, InUse)
      modifies this`mem, this`arena, this`rings, this`top
      ensures Sound(Now(heads), NONE) && OnlyLoose(arena, NONE)
      ensures Kept(old(mem), old(arena), mem, arena, p)
      ensures c in arena.at && !Used(arena.at[c].status) && c <= p && Next(old(arena), p) <= Next(arena, c)
      ensures arena.at[c].size == size && FreshlyFree(arena, rings, c)
    {
      ghost var s := Now(heads);
      ZeroNotIn(arena);
      HeadOf(s, NONE, p);
      size := SizeOf(Head(mem, p));
      var next := p + size;
      var chunk, total := MergeBack(p, size, heads);
      ghost var m1, a1 := mem, arena;
      c := chunk;
      if next != top {
        size := MergeForward(chunk, next, total, heads);
        ghost var m2, a2 := mem, arena;
        PlaceUnsorted(chunk, size, heads);
        KeptAgain(m1, a1, m2, a2, mem, arena, NONE);
      } else {
        size := MergeIntoTop(chunk, total, heads);
      }
      KeptAgain(s.mem, s.arena, m1, a1, mem, arena, p);
    }

    // -------------------------------------------------------------- malloc_consolidate

    /** The first chunk p of what was fastbin j is taken back; the one it links to is next. */
    method ConsolidateChunk(j: nat, p: nat) returns (nextp: nat)
      requires j < NFASTBINS && |fastbins| == NFASTBINS && fastbins[j] == 0 && p != 0
      requires Sound(Now(fastbins[j := p]), NONE) && OnlyLoose(arena, NONE)
      modifies this`mem, this`arena, this`rings, this`top, this`fasts
      ensures Sound(Now(fastbins[j := nextp]), NONE) && OnlyLoose(arena, NONE)
      ensures |old(fasts)| == NFASTBINS && old(fasts)[j] != [] && fasts == old(fasts)[j := old(fasts)[j][1..]]
      ensures Kept(old(mem), old(arena), mem, arena, NONE)
    {
      ghost var s := Now(fastbins[j := p]);
      PopFastSound(s, j);
      nextp := Fd(mem, p);
      ghost var heads := fastbins[j := p][j := nextp];
      assert heads == fastbins[j := nextp];
      arena := WithStatus(arena, p, InUse);
      fasts := fasts[j := fasts[j][1..]];
      ghost var a1 := arena;
      assert Now(heads) == PopFastStep(s, j);
      var size, c := Coalesce(p, heads);
      ZeroNotIn(s.arena);
      PoppedAndTaken(s.mem, s.arena, a1, mem, arena, p);
    }

    /** Empty fastbin j: its head has been cleared, and this was the first chunk in it. */
    method ConsolidateBin(j: nat, first: nat)
      requires j < NFASTBINS && |fastbins| == NFASTBINS && fastbins[j] == 0 && first != 0
      requires Sound(Now(fastbins[j := first]), NONE) && OnlyLoose(arena, NONE)
      modifies this`mem, this`arena, this`rings, this`top, this`fasts
      ensures Sound(Now(fastbins), NONE) && OnlyLoose(arena, NONE)
      ensures fasts == old(fasts)[j := []] && Kept(old(mem), old(arena), mem, arena, NONE)
    {
      var p := first;
      ghost var m0, a0 := mem, arena;
      ZeroNotIn(arena);
      while p != 0
        invariant Sound(Now(fastbins[j := p]), NONE) && OnlyLoose(arena, NONE)
        invariant |fasts| == |old(fasts)| == NFASTBINS && fasts == old(fasts)[j := fasts[j]]
        invariant Kept(m0, a0, mem, arena, NONE)
        decreases |fasts[j]|
      {
        ghost var m1, a1 := mem, arena;
        p := ConsolidateChunk(j, p);
        KeptAgain(m0, a0, m1, a1, mem, arena, NONE);
      }
      assert FastOk(mem, arena, j, 0, fasts[j]) by {
        assert Now(fastbins[j := p]).heads[j] == 0;
      }
      FastNull(mem, arena, j, fasts[j]);
      assert fastbins[j := 0] == fastbins;
    }

    /** The loop over the fastbins. */
    method ConsolidateBins(maxfb: nat)
      requires Sound(Now(fastbins), NONE) && OnlyLoose(arena, NONE) && maxfb == 7
      modifies this`mem, this`arena, this`rings, this`top, this`fasts, this`fastbins
      ensures Sound(Now(fastbins), NONE) && OnlyLoose(arena, NONE) && NoneFast(arena)
      ensures Kept(old(mem), old(arena), mem, arena, NONE)
      ensures NoneFast(old(arena)) ==> arena == old(arena)
    {
      ghost var m0, a0 := mem, arena;
      ZeroNotIn(arena);
      FastsEmpty(Now(fastbins), NONE);
      var fb := 0;
      while fb <= maxfb
        invariant fb <= 8 && Sound(Now(fastbins), NONE) && OnlyLoose(arena, NONE)
        invariant forall j {:trigger fasts[j]} :: 0 <= j < fb ==> fasts[j] == []
        invariant fasts[8] == [] && fasts[9] == []
        invariant Kept(m0, a0, mem, arena, NONE)
        invariant NoneFast(a0) ==> arena == a0
      {
        var p := fastbins[fb];
        if p != 0 {
          ghost var s := Now(fastbins);
          fastbins := fastbins[fb := 0];
          assert fastbins[fb := p] == s.heads;
          FirstIsFast(s, fb);
          ConsolidateBin(fb, p);
          KeptAgain(m0, a0, s.mem, s.arena, mem, arena, NONE);
        } else {
          assert FastOk(mem, arena, fb, fastbins[fb], fasts[fb]);
          FastNull(mem, arena, fb, fasts[fb]);
        }
        fb := fb + 1;
      }
      FastsEmpty(Now(fastbins), NONE);
    }

    /** malloc_consolidate once the state is initialised: every chunk of a fastbin becomes free. */
    method Consolidate()
      requires Ready()
      modifies this`mem, this`arena, this`rings, this`top, this`fasts, this`fastbins, this`maxFast
      ensures Ready() && NoneFast(arena) && !HaveFast(maxFast) && HaveAny(maxFast) == HaveAny(old(maxFast))
      ensures Kept(old(mem), old(arena), mem, arena, NONE) && Consolidated(old(arena), arena)
      ensures NoneFast(old(arena)) ==> arena == old(arena)
    {
      ghost var a0 := arena;
      FlagValues(maxFast);
      maxFast := ClearFast(maxFast);
      ConsolidateBins(maxFast / 8 - 2);
      SoundIsConsolidated(Now(fastbins), a0);
    }

    // -------------------------------------------------------------- free

    /** sbrk of the kernel: it never moves the break down. -1 is failure. */
    method Sbrk(diff: int) returns (s: int)
      requires brk <= limit
      modifies this`brk
      ensures s == -1 ==> brk == old(brk) && (diff < 0 || old(brk) + diff > limit)
      ensures s != -1 ==> s == old(brk) && diff >= 0 && brk == old(brk) + diff <= limit
    {
      var c := brk + diff;
      if c < brk || c > limit {
        return -1;
      }
      s := brk;
      brk := c;
    }

    /** sYSTRIm: with such an sbrk nothing is ever given back. */
    method SysTrim() returns (released: nat)
      requires brk <= limit
      modifies this`brk
      ensures released == 0 && brk == old(brk)
    {
      var topSize := SizeOf(Head(mem, top));
      var extra := ((topSize - MINSIZE + (PAGESIZE - 1)) / PAGESIZE - 1) * PAGESIZE;
      if extra > 0 {
        var currentBrk := Sbrk(0);
        if currentBrk == top + topSize {
          var ignored := Sbrk(-extra);
          var newBrk := Sbrk(0);
          if newBrk != -1 && currentBrk - newBrk != 0 {
            assert false;
          }
        }
      }
      released := 0;
    }

    /** What callers see: the blocks handed out, by the address of their first word. */
    ghost predicate Live(block: nat)
      reads this
    {
      block >= 8 && Has(arena, block - 8, InUse)
    }

    /** The chunk goes to the front of its fastbin, and keeps its use bit. */
    method FreeToFastbin(p: nat, size: nat)
      requires Ready() && Has(arena, p, InUse) && size == arena.at[p].size <= maxFast
      modifies this`mem, this`arena, this`fasts, this`fastbins, this`maxFast
      ensures Ready() && Kept(old(mem), old(arena), mem, arena, p)
      ensures InFastbin(old(arena), arena, old(fasts), fasts, p, size)
    {
      ZeroNotIn(arena);
      FlagValues(maxFast);
      FastIndex(Now(fastbins), p, maxFast);
      var fb := size / 8 - 2;
      PushFastSound(Now(fastbins), p, fb);
      maxFast := SetFast(maxFast);
      mem := SetFd(mem, p, fastbins[fb]);
      arena := WithStatus(arena, p, Fast(fb));
      fastbins := fastbins[fb := p];
      fasts := fasts[fb := [p] + fasts[fb]];
      ZeroNotIn(arena);
    }

    /** The chunk is merged with its free neighbours, in heap mid to chunk c; a large result empties the fastbins. */
    method FreeToUnsorted(p: nat) returns (ghost mid: Arena, ghost c: nat)
      requires Ready() && Has(arena, p, InUse)
      modifies this`mem, this`arena, this`rings, this`top, this`fasts, this`fastbins, this`maxFast, this`brk
      ensures Ready() && Kept(old(mem), old(arena), mem, arena, p)
      ensures FreedHeap(old(arena), p, mid, c) && AfterFree(mid, c, arena, rings) && HaveAny(maxFast)
    {
      ghost var m0, a0, s0 := mem, arena, Now(fastbins);
      FlagValues(maxFast);
      maxFast := SetAny(maxFast);
      FastsEmpty(Now(fastbins), NONE);
      var size;
      size, c := Coalesce(p, fastbins);
      FastsEmpty(Now(fastbins), NONE);
      mid := arena;
      SoundIsLone(Now(fastbins));
      SameFasts(s0, Now(fastbins));
      if size >= CONSOLIDATION_THRESHOLD {
        ghost var m1, a1 := mem, arena;
        EmptyFastbins();
        KeptAgain(m0, a0, m1, a1, mem, arena, p);
        if SizeOf(Head(mem, top)) >= TRIM_THRESHOLD {
          var released := SysTrim();
        }
      }
    }

    /** malloc_consolidate, if there may be chunks in fastbins. */
    method EmptyFastbins()
      requires Ready()
      modifies this`mem, this`arena, this`rings, this`top, this`fasts, this`fastbins, this`maxFast
      ensures Ready() && Kept(old(mem), old(arena), mem, arena, NONE) && Consolidated(old(arena), arena)
      ensures HaveAny(maxFast) == HaveAny(old(maxFast))
    {
      if HaveFast(maxFast) {
        Consolidate();
      } else {
        ZeroNotIn(arena);
        SoundIsConsolidated(Now(fastbins), arena);
      }
    }

    /** fREe, for NULL or a block handed out and not freed since. */
    method Free(block: nat) returns (ghost mid: Arena, ghost c: nat)
      requires Valid() && (block == 0 || Live(block))
      modifies this`mem, this`arena, this`rings, this`top, this`fasts, this`fastbins, this`maxFast, this`brk
      ensures Valid() && (block != 0 ==> Ready())
      ensures block == 0 ==> unchanged(this)
      ensures block != 0 ==> Kept(old(mem), old(arena), mem, arena, block - 8)
      ensures block != 0 && old(arena).at[block - 8].size <= 72 ==>
        rings == old(rings) && InFastbin(old(arena), arena, old(fasts), fasts, block - 8, old(arena).at[block - 8].size)
      ensures block != 0 && old(arena).at[block - 8].size > 72 ==>
        FreedHeap(old(arena), block - 8, mid, c) && AfterFree(mid, c, arena, rings)
    {
      mid, c := arena, 0;
      if block != 0 {
        var p := block - 8;
        ZeroNotIn(arena);
        HeadOf(Now(fastbins), NONE, p);
        assert Aligned(arena, p);
        var size := SizeOf(Head(mem, p));
        if size <= maxFast {
          FreeToFastbin(p, size);
        } else {
          mid, c := FreeToUnsorted(p);
        }
      }
    }

    // -------------------------------------------------------------- handing a chunk out

    /** set_inuse_bit_at_offset, for a chunk that is handed out whole. */
    method HandOut(p: nat, size: nat)
      requires Sound(Now(fastbins), NONE) && OnlyLoose(arena, p) && Has(arena, p, Loose) && size == arena.at[p].size
      modifies this`mem, this`arena
      ensures Sound(Now(fastbins), NONE) && OnlyLoose(arena, NONE)
      ensures arena == WithStatus(old(arena), p, InUse) && GivenFree(old(mem), old(arena), mem, arena, p)
    {
      ghost var s := Now(fastbins);
      HandOutSound(s, p);
      FreeChunk(s, p);
      ZeroNotIn(arena);
      assert ChunkOk(arena, p);
      var next := p + size;
      var head := Head(mem, next);
      HeadOf(s, NONE, next);
      mem := SetHead(mem, next, SizeOf(head));
      arena := WithStatus(arena, p, InUse);
      assert Now(fastbins) == HandOutStep(s, p);
      ZeroNotIn(arena);
    }

    /** The remainder of a chunk that is split replaces whatever the unsorted list held: nothing. */
    method SplitOff(p: nat, size: nat, nb: nat)
      requires Sound(Now(fastbins), NONE) && OnlyLoose(arena, p) && Has(arena, p, Loose) && size == arena.at[p].size
      requires nb % 8 == 0 && MINSIZE <= nb && nb + MINSIZE <= size && |rings[UNSORTED]| == 1
      modifies this`mem, this`arena, this`rings
      ensures Sound(Now(fastbins), NONE) && OnlyLoose(arena, NONE)
      ensures GivenFree(old(mem), old(arena), mem, arena, p) && arena.at[p].size == nb && arena.end == old(arena).end
      ensures Rest(arena, rings, bins, p + nb, size - nb)
    {
      ghost var s' := SplitOffSound(Now(fastbins), p, nb);
      mem := RemainderStores(mem, bins, p, nb, size - nb);
      arena := s'.arena;
      rings := s'.rings;
      assert Now(fastbins) == s';
    }

    // -------------------------------------------------------------- placing chunks in bins

    /** The first chunk of large bin i that is no larger, when the last one is not. */
    method FindSmaller(i: nat, size: nat, first: nat) returns (fwd: nat, ghost j: nat)
      requires Sound(Now(fastbins), NONE) && 32 <= i < NBINS && |rings[i]| > 1 && first == rings[i][1]
      requires var last := rings[i][|rings[i]| - 1]; last in arena.at && arena.at[last].size <= size
      ensures 1 <= j < |rings[i]| && fwd == rings[i][j] && fwd in arena.at && arena.at[fwd].size <= size
      ensures AllLarger(arena, rings[i], j, size) && AllAbove(arena, rings[i], j, size)
    {
      ghost var s, r := Now(fastbins), rings[i];
      var withBit := size + 1;
      fwd, j := first, 1;
      RingHead(s, i, 1);
      while withBit < Head(mem, fwd)
        invariant 1 <= j < |r| && fwd == r[j] && fwd in arena.at
        invariant Head(mem, fwd) == arena.at[fwd].size + 1
        invariant AllLarger(arena, r, j, size) && AllAbove(arena, r, j, size)
        decreases |r| - j
      {
        SameBin(s, i, j, |r| - 1);
        RingHead(s, i, j);
        fwd := Fd(mem, fwd);
        j := j + 1;
        RingHead(s, i, j);
      }
    }

    /** The neighbours between which a chunk of this size goes in large bin i. */
    method FindPlace(i: nat, size: nat, ghost p: nat) returns (bck: nat, fwd: nat, ghost k: nat)
      requires Sound(Now(fastbins), NONE) && 32 <= i < NBINS && p in arena.at && arena.at[p].size == size
      ensures k < |rings[i]| && bck == rings[i][k] && fwd == After(rings[i], k) && InOrder(arena, rings[i], p, k)
      ensures PlaceOf(arena, rings[i], k, size)
    {
      ghost var s, r := Now(fastbins), rings[i];
      BinHeader(s, i);
      bck := Header(bins, i);
      fwd := Fd(mem, bck);
      k := 0;
      if fwd != bck {
        RingHead(s, i, |r| - 1);
        if size < Head(mem, Bk(mem, bck)) {
          fwd := bck;
          bck := Bk(mem, bck);
          k := |r| - 1;
          forall j | 1 <= j < |r| && r[j] in arena.at
            ensures arena.at[r[j]].size >= size
          {
            SameBin(s, i, j, |r| - 1);
          }
        } else {
          ghost var j;
          fwd, j := FindSmaller(i, size, fwd);
          k := j - 1;
          RingHead(s, i, j);
          bck := Bk(mem, fwd);
        }
      }
      OrderedPlace(s, p, i, k);
    }

    /** Place a chunk that was unsorted in the bin of its size, and mark the bin. */
    method PlaceInBin(victim: nat, size: nat)
      requires Sound(Now(fastbins), NONE) && OnlyLoose(arena, victim) && Has(arena, victim, Loose)
      requires size == arena.at[victim].size && arena.end < TWO_32
      modifies this`mem, this`arena, this`rings, this`binmap
      ensures Sound(Now(fastbins), NONE) && OnlyLoose(arena, NONE)
      ensures arena == WithStatus(old(arena), victim, Binned(Index(size)))
        && Kept(old(mem), old(arena), mem, arena, NONE)
      ensures |rings| == NBINS && forall b {:trigger rings[b]} :: 0 <= b < NBINS && b != Index(size) ==>
        rings[b] == old(rings)[b]
      ensures size >= MINSIZE && exists k :: BinnedAt(old(arena), old(rings), rings, k, victim, size)
    {
      ghost var s := Now(fastbins);
      assert ChunkOk(arena, victim);
      IndexInRange(size);
      var i: nat;
      var bck: nat, fwd: nat;
      ghost var k: nat;
      if size < MIN_LARGE_SIZE {
        i := size / 8;
        BinHeader(s, i);
        bck := Header(bins, i);
        fwd := Fd(mem, bck);
        k := 0;
      } else {
        i := LargebinIndex(size);
        bck, fwd, k := FindPlace(i, size, victim);
      }
      MarkKeeps(binmap, rings, i);
      binmap := binmap[i / 32 := OrBit(binmap[i / 32], i % 32)];
      assert SizedFor(arena, victim, i);
      assert BinnedAt(arena, rings, rings[i := With(rings[i], k, victim)], k, victim, size);
      Insert(victim, bck, fwd, fastbins, i, k);
      StatusKept(s.mem, mem, s.arena, victim, Binned(i));
    }

    /** A small request takes the start of the last remainder, the only unsorted chunk. */
    method TakeRemainder(victim: nat, size: nat, nb: nat)
      requires Sound(Now(fastbins), NONE) && OnlyLoose(arena, NONE) && |rings[UNSORTED]| == 2
        && rings[UNSORTED][1] == victim
      requires victim in arena.at && arena.at[victim].size == size && nb % 8 == 0 && MINSIZE <= nb
        && nb + MINSIZE < size
      modifies this`mem, this`arena, this`rings, this`lastRemainder
      ensures Sound(Now(fastbins), NONE) && OnlyLoose(arena, NONE)
      ensures GivenFree(old(mem), old(arena), mem, arena, victim) && arena.at[victim].size == nb
        && arena.end == old(arena).end
      ensures Rest(arena, rings, bins, victim + nb, size - nb) && lastRemainder == victim + nb
    {
      ghost var s := Now(fastbins);
      ghost var s' := RemainderSound(s, victim, nb, size - nb);
      mem := RemainderStores(mem, bins, victim, nb, size - nb);
      lastRemainder := victim + nb;
      arena := s'.arena;
      rings := s'.rings;
      assert Now(fastbins) == s';
    }

    /** A free chunk is taken out of its bin and handed out whole. */
    method TakeWhole(victim: nat, size: nat, ghost i: nat, ghost k: nat)
      requires Sound(Now(fastbins), NONE) && OnlyLoose(arena, NONE) && 1 <= i < NBINS && 1 <= k < |rings[i]|
        && rings[i][k] == victim
      requires victim in arena.at && size == arena.at[victim].size
      modifies this`mem, this`arena, this`rings
      ensures Sound(Now(fastbins), NONE) && OnlyLoose(arena, NONE)
      ensures GivenFree(old(mem), old(arena), mem, arena, victim) && arena.at[victim].size == size
        && arena.end == old(arena).end
    {
      ghost var m0, a0 := mem, arena;
      RingHead(Now(fastbins), i, k);
      Unlink(victim, fastbins, NONE, i, k);
      StatusKept(m0, mem, a0, victim, Loose);
      ghost var m1, a1 := mem, arena;
      HandOut(victim, size);
      SparedThenGiven(m0, a0, m1, a1, mem, arena, victim);
    }

    /** The last unsorted chunk moves to the bin of its size. */
    method SortOne(victim: nat, size: nat)
      requires Sound(Now(fastbins), NONE) && OnlyLoose(arena, NONE) && arena.end < TWO_32
      requires LastIs(rings, bins, victim) && victim != bins
      requires victim in arena.at && size == arena.at[victim].size
      modifies this`mem, this`arena, this`rings, this`binmap
      ensures Sound(Now(fastbins), NONE) && OnlyLoose(arena, NONE) && arena.end == old(arena).end
      ensures SamePool(old(arena), arena) && NoNewUnsorted(old(arena), arena)
      ensures Kept(old(mem), old(arena), mem, arena, NONE)
      ensures |rings| == NBINS && rings[UNSORTED] == old(rings)[UNSORTED][..|old(rings)[UNSORTED]| - 1]
      ensures forall b {:trigger rings[b]} :: 2 <= b < NBINS && b != Index(size) ==> rings[b] == old(rings)[b]
      ensures LastIs(rings, bins, Bk(mem, bins))
    {
      ghost var s, k := Now(fastbins), |rings[UNSORTED]| - 1;
      RingHead(s, UNSORTED, k);
      assert ChunkOk(arena, victim);
      IndexInRange(size);
      Unlink(victim, fastbins, NONE, UNSORTED, k);
      StatusKept(s.mem, mem, s.arena, victim, Loose);
      ghost var m1, a1 := mem, arena;
      PlaceInBin(victim, size);
      KeptAgain(s.mem, s.arena, m1, a1, mem, arena, NONE);
      MovedPool(s.arena, victim, Index(size));
      UnsortedHeader(Now(fastbins), NONE);
    }

    /** Take the last unsorted chunk, of this size, if it fits exactly or is the last remainder. */
    method TakeUnsorted(victim: nat, size: nat, nb: nat) returns (taken: bool, ghost how: Source)
      requires Sound(Now(fastbins), NONE) && OnlyLoose(arena, NONE) && nb % 8 == 0 && MINSIZE <= nb
        && SmallBinEmpty(rings, nb)
      requires LastIs(rings, bins, victim) && victim != bins
      requires victim in arena.at && size == arena.at[victim].size
      modifies this`mem, this`arena, this`rings, this`lastRemainder
      ensures Sound(Now(fastbins), NONE) && OnlyLoose(arena, NONE) && arena.end == old(arena).end
      ensures !taken ==>
        && mem == old(mem) && arena == old(arena) && rings == old(rings)
        && lastRemainder == old(lastRemainder) && size != nb
      ensures taken ==> GivenFree(old(mem), old(arena), mem, arena, victim) && arena.at[victim].size == nb
      ensures taken ==> TakenAs(old(arena), victim, nb, how, old(lastRemainder))
      ensures taken ==> Parted(nb, old(lastRemainder), victim + 8, how, old(arena), arena, lastRemainder)
      ensures taken && how == Remainder <==>
        nb < MIN_LARGE_SIZE && |old(rings)[UNSORTED]| == 2 && victim == old(lastRemainder) && size > nb + MINSIZE
      ensures taken && how != Remainder ==> size == nb
    {
      ghost var s, k := Now(fastbins), |rings[UNSORTED]| - 1;
      RingHead(s, UNSORTED, k);
      taken, how := true, BestFit;
      UnsortedHeader(s, NONE);
      if nb < MIN_LARGE_SIZE && Bk(mem, victim) == Header(bins, UNSORTED) && victim == lastRemainder
        && size > nb + MINSIZE {
        OnlyOne(s, k);
        OnlyUnsorted(s, victim, nb);
        how := Remainder;
        TakeRemainder(victim, size, nb);
        RestIsAlone(Now(fastbins), victim + nb, size - nb);
      } else if size == nb {
        ExactIsBest(arena, victim, nb);
        TakeWhole(victim, size, UNSORTED, k);
      } else {
        taken := false;
      }
    }

    /** Take the last unsorted chunk, or move it to its bin and go on to the one before it. */
    method TakeOrSort(victim: nat, nb: nat) returns (taken: bool, ghost how: Source, next: nat)
      requires Sound(Now(fastbins), NONE) && OnlyLoose(arena, NONE) && arena.end < TWO_32
      requires nb % 8 == 0 && MINSIZE <= nb && SmallBinEmpty(rings, nb) && LastIs(rings, bins, victim) && victim != bins
      modifies this`mem, this`arena, this`rings, this`binmap, this`lastRemainder
      ensures Sound(Now(fastbins), NONE) && OnlyLoose(arena, NONE) && arena.end == old(arena).end
      ensures !taken ==> SamePool(old(arena), arena) && NoNewUnsorted(old(arena), arena)
      ensures !taken ==> Kept(old(mem), old(arena), mem, arena, NONE)
      ensures |old(rings)| == NBINS && |old(rings)[UNSORTED]| >= 2
      ensures !taken ==> |rings| == NBINS && LastIs(rings, bins, next)
      ensures !taken ==> rings[UNSORTED] == old(rings)[UNSORTED][..|old(rings)[UNSORTED]| - 1]
      ensures !taken ==> victim in old(arena).at && old(arena).at[victim].size != nb
      ensures !taken ==> SmallBinEmpty(rings, nb) && lastRemainder == old(lastRemainder)
      ensures taken ==> GivenFree(old(mem), old(arena), mem, arena, victim) && arena.at[victim].size == nb
      ensures taken ==> TakenAs(old(arena), victim, nb, how, old(lastRemainder))
      ensures taken ==> Parted(nb, old(lastRemainder), victim + 8, how, old(arena), arena, lastRemainder)
      ensures taken && how == Remainder <==>
        && |old(rings)[UNSORTED]| == 2 && victim == old(lastRemainder) && nb < MIN_LARGE_SIZE
        && victim in old(arena).at && old(arena).at[victim].size > nb + MINSIZE
      ensures taken && how != Remainder ==> victim in old(arena).at && old(arena).at[victim].size == nb
    {
      ghost var s := Now(fastbins);
      LastUnsorted(s, victim);
      var size := SizeOf(Head(mem, victim));
      taken, how := TakeUnsorted(victim, size, nb);
      next := 0;
      if !taken {
        OtherSmallBin(s, victim, nb);
        SortOne(victim, size);
        next := Bk(mem, Header(bins, UNSORTED));
      }
    }

    /**
     * Process the unsorted chunks, from the back of their list: take one that fits exactly, or the last
     * remainder, and place the others in bins. 0 when the list has become empty.
     */
    method SortUnsorted(nb: nat) returns (victim: nat, ghost how: Source)
      requires Sound(Now(fastbins), NONE) && OnlyLoose(arena, NONE) && arena.end < TWO_32
      requires nb % 8 == 0 && MINSIZE <= nb && SmallBinEmpty(rings, nb)
      modifies this`mem, this`arena, this`rings, this`binmap, this`lastRemainder
      ensures Sound(Now(fastbins), NONE) && OnlyLoose(arena, NONE) && arena.end == old(arena).end
      ensures victim == 0 ==> SamePool(old(arena), arena) && |rings[UNSORTED]| == 1 && SmallBinEmpty(rings, nb)
      ensures victim == 0 ==> Kept(old(mem), old(arena), mem, arena, NONE) && NoNewUnsorted(old(arena), arena)
      ensures victim == 0 ==> lastRemainder == old(lastRemainder)
      ensures victim != 0 ==> GivenFree(old(mem), old(arena), mem, arena, victim) && arena.at[victim].size == nb
      ensures victim != 0 ==> TakenAs(old(arena), victim, nb, how, old(lastRemainder))
      ensures victim != 0 ==> Parted(nb, old(lastRemainder), victim + 8, how, old(arena), arena, lastRemainder)
      ensures victim != 0 ==> exists k :: OldestExact(old(arena), old(rings), k, victim, nb, how)
      ensures victim != 0 && how == Remainder <==> RemainderWaits(old(arena), old(rings), old(lastRemainder), nb)
    {
      ghost var m0, a0, r0, last := mem, arena, rings, lastRemainder;
      ZeroNotIn(arena);
      SamePoolSelf(arena);
      var unsorted := Header(bins, UNSORTED);
      UnsortedHeader(Now(fastbins), NONE);
      victim := Bk(mem, unsorted);
      while victim != unsorted
        invariant Sound(Now(fastbins), NONE) && OnlyLoose(arena, NONE) && SmallBinEmpty(rings, nb)
        invariant SortingDown(m0, a0, r0, mem, arena, rings, last, nb)
        invariant lastRemainder == last && LastIs(rings, bins, victim)
        decreases |rings[UNSORTED]|
      {
        var taken, next;
        taken, how, next := SortTurn(victim, nb, m0, a0, r0);
        if taken {
          return;
        }
        victim := next;
      }
      OnlyHeader(Now(fastbins));
      victim, how := 0, Refused;
    }

    /** One turn of the loop, for a list r0 that has been sorted down to the victim. */
    method SortTurn(victim: nat, nb: nat, ghost m0: Memory, ghost a0: Arena, ghost r0: seq<seq<nat>>)
      returns (taken: bool, ghost how: Source, next: nat)
      requires Sound(Now(fastbins), NONE) && OnlyLoose(arena, NONE) && arena.end < TWO_32
      requires nb % 8 == 0 && MINSIZE <= nb && SmallBinEmpty(rings, nb) && LastIs(rings, bins, victim) && victim != bins
      requires SortingDown(m0, a0, r0, mem, arena, rings, lastRemainder, nb)
      modifies this`mem, this`arena, this`rings, this`binmap, this`lastRemainder
      ensures Sound(Now(fastbins), NONE) && OnlyLoose(arena, NONE) && arena.end == old(arena).end
      ensures !taken ==> SmallBinEmpty(rings, nb) && LastIs(rings, bins, next) && lastRemainder == old(lastRemainder)
      ensures !taken ==> SortingDown(m0, a0, r0, mem, arena, rings, lastRemainder, nb)
      ensures !taken ==> |rings[UNSORTED]| < |old(rings)[UNSORTED]|
      ensures taken ==> victim != 0 && GivenFree(m0, a0, mem, arena, victim) && arena.at[victim].size == nb
      ensures taken ==> TakenAs(a0, victim, nb, how, old(lastRemainder))
      ensures taken ==> Parted(nb, old(lastRemainder), victim + 8, how, a0, arena, lastRemainder)
      ensures taken ==> exists k :: OldestExact(a0, r0, k, victim, nb, how)
      ensures taken ==> (how == Remainder <==> RemainderWaits(a0, r0, old(lastRemainder), nb))
    {
      ghost var m1, a1, r1, last := mem, arena, rings, lastRemainder;
      taken, how, next := TakeOrSort(victim, nb);
      if taken {
        TurnTaken(m0, a0, r0, m1, a1, r1, mem, arena, victim, nb, how, last, lastRemainder);
      } else {
        TurnSorted(m0, a0, r0, m1, a1, r1, mem, arena, rings, victim, nb, last);
      }
    }

    // -------------------------------------------------------------- searching the bins

    /** Scan the bin of a large request from its small end. */
    method ScanBin(idx: nat, nb: nat) returns (victim: nat, ghost k: nat)
      requires Sound(Now(fastbins), NONE) && 32 <= idx < NBINS
      ensures victim == 0 ==> TooSmallAfter(Now(fastbins), idx, 0, nb)
      ensures victim != 0 ==>
        1 <= k < |rings[idx]| && rings[idx][k] == victim && victim in arena.at && arena.at[victim].size >= nb
      ensures victim != 0 ==> TooSmallAfter(Now(fastbins), idx, k, nb)
    {
      ghost var s, r := Now(fastbins), rings[idx];
      BinHeader(s, idx);
      ZeroNotIn(arena);
      var bin := Header(bins, idx);
      victim := Bk(mem, bin);
      k := |r| - 1;
      while victim != bin
        invariant 0 <= k < |r| && victim == r[k] && TooSmallAfter(s, idx, k, nb)
        decreases k
      {
        RingHead(s, idx, k);
        var size := SizeOf(Head(mem, victim));
        if size >= nb {
          return;
        }
        victim := Bk(mem, victim);
        k := k - 1;
      }
      assert s.rings[idx][k] == bin;
      return 0, 0;
    }

    /** The next word of the bin map with a bit set, or the end of the map. */
    method NextBlock(start: nat, ghost idx: nat) returns (block: nat)
      requires Sound(Now(fastbins), NONE) && 2 <= idx && start <= 3 && EmptyBetween(rings, idx, 32 * start + 32)
        && idx < 32 * start + 32
      ensures start < block && (block < 3 ==> binmap[block] != 0 && EmptyBetween(rings, idx, 32 * block))
      ensures block >= 3 ==> EmptyBetween(rings, idx, NBINS)
    {
      RingsHaveHeaders(Now(fastbins));
      block := start + 1;
      while block < 3 && binmap[block] == 0
        invariant start < block && EmptyBetween(rings, idx, 32 * block) && idx < 32 * block
        decreases 3 - block
      {
        CursorStart(32 * block);
        RestOfBlockEmpty(binmap, rings, idx, 32 * block, block, 1);
        block := block + 1;
      }
    }

    /** From a bin on, the first one that is marked in this word of the map. */
    method NextMarked(bin0: nat, block: nat, bit0: nat, word: nat, ghost idx: nat) returns (bin: nat, bit: nat)
      requires Sound(Now(fastbins), NONE) && block <= 3 && word == binmap[block] && 0 < bit0 <= word
      requires 2 <= idx < bin0 && Cursor(bin0, block, bit0) && EmptyBetween(rings, idx, bin0)
      ensures bin0 <= bin < NBINS && Cursor(bin, block, bit) && EmptyBetween(rings, idx, bin) && 0 < bit && block < 3
    {
      RingsHaveHeaders(Now(fastbins));
      bin, bit := bin0, bit0;
      while And(bit, word) == 0
        invariant bin0 <= bin < NBINS && Cursor(bin, block, bit) && EmptyBetween(rings, idx, bin) && 0 < bit <= word
        decreases NBINS - bin
      {
        BinSkipped(binmap, rings, idx, bin, block, bit);
        bin := bin + 1;
        bit := ShiftBit(bit);
      }
    }

    /** The next marked bin, in this word of the map or a later one. */
    method NextCandidate(bin0: nat, block0: nat, bit0: nat, word0: nat, ghost idx: nat)
      returns (found: bool, bin: nat, block: nat, bit: nat, word: nat)
      requires Sound(Now(fastbins), NONE) && 2 <= idx < bin0 <= NBINS && block0 <= 3 && word0 == binmap[block0]
      requires Cursor(bin0, block0, bit0) && EmptyBetween(rings, idx, bin0)
      ensures !found ==> EmptyBetween(rings, idx, NBINS)
      ensures found ==> bin0 <= bin < NBINS && block < 3 && word == binmap[block] && bit > 0
      ensures found ==> Cursor(bin, block, bit) && EmptyBetween(rings, idx, bin)
    {
      RingsHaveHeaders(Now(fastbins));
      bin, block, bit, word := bin0, block0, bit0, word0;
      if bit > word || bit == 0 {
        if block < 3 {
          RestOfBlockEmpty(binmap, rings, idx, bin, block, bit);
        }
        block := NextBlock(block, idx);
        if block >= 3 {
          return false, bin, block, bit, word;
        }
        word := binmap[block];
        bin := 32 * block;
        bit := 1;
        CursorStart(bin);
        assert Cursor(bin, block, bit);
      }
      bin, bit := NextMarked(bin, block, bit, word, idx);
      found := true;
    }

    /** Scan the bins above idx for the first that is not empty, and give its last chunk. */
    method ScanHigher(idx: nat) returns (victim: nat, ghost i: nat)
      requires Sound(Now(fastbins), NONE) && 2 <= idx < NBINS
      modifies this`binmap
      ensures Sound(Now(fastbins), NONE)
      ensures victim == 0 ==> EmptyBetween(rings, idx, NBINS)
      ensures victim != 0 ==>
        idx < i < NBINS && EmptyBetween(rings, idx, i) && |rings[i]| > 1 && victim == rings[i][|rings[i]| - 1]
    {
      RingsHaveHeaders(Now(fastbins));
      var bin := idx + 1;
      var block := bin / 32;
      var word := binmap[block];
      var bit := Pow2(bin % 32);
      CursorStart(bin);
      while true
        invariant Sound(Now(fastbins), NONE) && idx < bin <= NBINS && block <= 3 && word == binmap[block]
        invariant Cursor(bin, block, bit) && EmptyBetween(rings, idx, bin)
        decreases NBINS - bin
      {
        var found;
        found, bin, block, bit, word := NextCandidate(bin, block, bit, word, idx);
        if !found {
          return 0, 0;
        }
        BinHeader(Now(fastbins), bin);
        victim := Bk(mem, Header(bins, bin));
        if victim == Header(bins, bin) {
          FalseAlarm(binmap, rings, idx, bin, block, bit);
          word := AndNot(word, bit);
          binmap := binmap[block := word];
          bin := bin + 1;
          bit := ShiftBit(bit);
        } else {
          i := bin;
          RingNodes(mem, bins, arena, rings, i, |rings[i]| - 1);
          ZeroNotIn(arena);
          return;
        }
      }
    }

    // -------------------------------------------------------------- serving a request

    /** Take chunk k of bin i, which is large enough: all of it, or its first nb bytes. */
    method Carve(victim: nat, nb: nat, ghost i: nat, ghost k: nat) returns (split: bool)
      requires Sound(Now(fastbins), NONE) && OnlyLoose(arena, NONE) && nb % 8 == 0 && MINSIZE <= nb
        && |rings[UNSORTED]| == 1
      requires 2 <= i < NBINS && 1 <= k < |rings[i]| && rings[i][k] == victim && victim in arena.at
        && nb <= arena.at[victim].size
      modifies this`mem, this`arena, this`rings
      ensures Sound(Now(fastbins), NONE) && OnlyLoose(arena, NONE) && arena.end == old(arena).end
      ensures GivenFree(old(mem), old(arena), mem, arena, victim) && nb <= arena.at[victim].size < nb + MINSIZE
      ensures split <==> old(arena).at[victim].size >= nb + MINSIZE
      ensures if split
              then arena.at[victim].size == nb && Rest(arena, rings, bins, victim + nb, old(arena).at[victim].size - nb)
              else arena.at[victim].size == old(arena).at[victim].size
    {
      ghost var m0, a0 := mem, arena;
      RingHead(Now(fastbins), i, k);
      var size := SizeOf(Head(mem, victim));
      if size - nb < MINSIZE {
        TakeWhole(victim, size, i, k);
        split := false;
      } else {
        Unlink(victim, fastbins, NONE, i, k);
        StatusKept(m0, mem, a0, victim, Loose);
        ghost var m1, a1 := mem, arena;
        SplitOff(victim, size, nb);
        SparedThenGiven(m0, a0, m1, a1, mem, arena, victim);
        split := true;
      }
    }

    /** The first nb bytes of the top are handed out. */
    method SplitTop(nb: nat) returns (victim: nat)
      requires Ready() && nb % 8 == 0 && MINSIZE <= nb && top in arena.at && arena.at[top].size >= nb + MINSIZE
      modifies this`mem, this`arena, this`top
      ensures Ready() && victim == old(top) && arena.end == old(arena).end
      ensures GivenFree(old(mem), old(arena), mem, arena, victim) && arena.at[victim].size == nb
      ensures Has(arena, victim + nb, Top)
    {
      ghost var s := Now(fastbins);
      SplitTopSound(s, nb);
      victim := top;
      var remainderSize := SizeOf(Head(mem, victim)) - nb;
      mem := SetHead(mem, victim, nb);
      mem := SetHead(mem, victim + nb, remainderSize);
      top := victim + nb;
      arena := Split(arena, victim, nb, Top);
      assert Now(fastbins) == SplitStep(s, victim, nb);
      SameFlags(s.arena, arena, maxFast);
    }

    /** A fastbin request takes the first chunk of its fastbin. */
    method TakeFast(nb: nat) returns (block: nat, ghost pool: Arena)
      requires Ready() && nb % 8 == 0 && MINSIZE <= nb <= maxFast
      modifies this`arena, this`fastbins, this`fasts
      ensures Ready() && pool == old(arena)
      ensures block != 0 ==>
        FirstChoices(nb, old(lastRemainder), block, FromFastbin, pool, old(arena), old(rings), old(fastbins))
      ensures block == 0 ==>
        arena == old(arena) && fastbins == old(fastbins) && fasts == old(fasts) && NoneFastExact(arena, nb)
      ensures block != 0 ==>
        Outcome(nb, old(lastRemainder), block, FromFastbin, pool, old(mem), old(arena), mem, arena, lastRemainder,
          top, limit)
    {
      pool := arena;
      var fb := nb / 8 - 2;
      FastRequest(nb, maxFast);
      FastsOfSize(Now(fastbins), nb);
      var victim := fastbins[fb];
      block := 0;
      if victim != 0 {
        ghost var s := Now(fastbins);
        TakeFastSound(s, fb, maxFast);
        AlignedAt(s, victim);
        fastbins := fastbins[fb := Fd(mem, victim)];
        arena := WithStatus(arena, victim, InUse);
        fasts := fasts[fb := fasts[fb][1..]];
        assert Now(fastbins) == PopFastStep(s, fb);
        block := victim + 8;
        FastOutcome(nb, lastRemainder, block, mem, pool, arena, top, limit);
      }
    }

    /** A small request takes the last chunk of its bin, which holds one size only. */
    method TakeSmall(nb: nat) returns (block: nat, ghost pool: Arena)
      requires Ready() && nb % 8 == 0 && MINSIZE <= nb < MIN_LARGE_SIZE && HaveAny(maxFast)
      modifies this`mem, this`arena, this`rings
      ensures Ready() && pool == old(arena)
      ensures block == 0 ==> mem == old(mem) && arena == old(arena) && rings == old(rings) && SmallBinEmpty(rings, nb)
      ensures block != 0 <==> SmallBinHas(old(rings), nb)
      ensures block != 0 ==> Oldest(old(rings), nb, block - 8)
      ensures block != 0 ==>
        block - 8 in old(arena).at && old(arena).at[block - 8].size == nb && old(arena).at[block - 8].status.Binned?
      ensures block != 0 ==>
        Outcome(nb, old(lastRemainder), block, FromSmallBin, pool, old(mem), old(arena), mem, arena, lastRemainder,
          top, limit)
    {
      pool := arena;
      ghost var s := Now(fastbins);
      var idx := nb / 8;
      IndexInRange(nb);
      BinHeader(s, idx);
      var victim := Bk(mem, Header(bins, idx));
      block := 0;
      if victim != Header(bins, idx) {
        SmallBinFits(s, nb);
        TakeWhole(victim, nb, idx, |rings[idx]| - 1);
        AlignedAt(s, victim);
        FlagsKept(s, Now(fastbins), maxFast);
        block := victim + 8;
        ServedOutcome(nb, lastRemainder, block, FromSmallBin, s.mem, pool, mem, arena, lastRemainder, top, limit);
      }
    }

    /** The rest of mALLOc: unsorted chunks, the bin of the request, the bins above it, the top. */
    method Search(nb: nat, idx: nat) returns (block: nat, ghost how: Source, ghost pool: Arena)
      requires Ready() && nb % 8 == 0 && MINSIZE <= nb && nb + MINSIZE < TWO_32 && idx == Index(nb) && HaveAny(maxFast)
      requires SmallBinEmpty(rings, nb) && (nb >= MIN_LARGE_SIZE ==> NoneFast(arena) && !HaveFast(maxFast))
      modifies this
      ensures how != FromFastbin
      ensures how == Remainder && pool == old(arena) <==> RemainderWaits(old(arena), old(rings), old(lastRemainder), nb)
      ensures Ready()
      ensures Outcome(nb, old(lastRemainder), block, how, pool, old(mem), old(arena), mem, arena, lastRemainder,
        top, limit)
      decreases HaveFast(maxFast), 3, 1
    {
      ghost var s0, last := Now(fastbins), lastRemainder;
      var victim;
      victim, how := SortUnsorted(nb);
      ghost var s1 := Now(fastbins);
      FlagsKept(s0, s1, maxFast);
      if victim != 0 {
        block, pool := victim + 8, s0.arena;
        TakenOutcome(nb, last, victim, how, s0, mem, arena, lastRemainder, top, limit);
        return;
      }
      SamePoolFast(s0.arena, arena);
      block, how, pool := AfterSorting(nb, idx, s0.mem, s0.arena);
    }

    /** The rest of the search, when the heap a0 has been changed only by putting chunks in bins. */
    method AfterSorting(nb: nat, idx: nat, ghost m0: Memory, ghost a0: Arena)
      returns (block: nat, ghost how: Source, ghost pool: Arena)
      requires Ready() && nb % 8 == 0 && MINSIZE <= nb && nb + MINSIZE < TWO_32 && idx == Index(nb) && HaveAny(maxFast)
      requires SmallBinEmpty(rings, nb) && (nb >= MIN_LARGE_SIZE ==> NoneFast(arena) && !HaveFast(maxFast))
        && |rings[UNSORTED]| == 1
      requires SamePool(a0, arena) && NoNewUnsorted(a0, arena) && Kept(m0, a0, mem, arena, NONE)
      modifies this
      ensures Ready() && how != FromFastbin && (how == Remainder ==> pool != a0)
      ensures Outcome(nb, old(lastRemainder), block, how, pool, m0, a0, mem, arena, lastRemainder, top, limit)
      decreases HaveFast(maxFast), 3, 0
    {
      ghost var m1, a1, last := mem, arena, lastRemainder;
      SamePoolFast(a0, a1);
      block, how, pool := SearchSorted(nb, idx);
      SortedBefore(nb, last, block, how, pool, m0, a0, m1, a1, mem, arena, lastRemainder, top, limit);
      NotAtOnce(a0, a1, pool, how);
      pool := Unsorted(a0, a1, pool);
    }

    /** The same once every free chunk is in its own bin. */
    method SearchSorted(nb: nat, idx: nat) returns (block: nat, ghost how: Source, ghost pool: Arena)
      requires Ready() && nb % 8 == 0 && MINSIZE <= nb && nb + MINSIZE < TWO_32 && idx == Index(nb) && HaveAny(maxFast)
      requires SmallBinEmpty(rings, nb) && (nb >= MIN_LARGE_SIZE ==> NoneFast(arena) && !HaveFast(maxFast))
        && |rings[UNSORTED]| == 1
      modifies this
      ensures how != FromFastbin && (how == Remainder ==> pool != old(arena))
      ensures Ready()
      ensures Outcome(nb, old(lastRemainder), block, how, pool, old(mem), old(arena), mem, arena, lastRemainder,
        top, limit)
      decreases HaveFast(maxFast), 2
    {
      ghost var s0, last := Now(fastbins), lastRemainder;
      var victim := SearchBins(nb, idx);
      if victim != 0 {
        FlagsKept(s0, Now(fastbins), maxFast);
        AlignedAt(s0, victim);
        block, how, pool := victim + 8, BestFit, s0.arena;
        ServedOutcome(nb, last, block, how, s0.mem, pool, mem, arena, lastRemainder, top, limit);
      } else {
        block, how, pool := UseTop(nb);
        NotRemainder(s0, nb, last, block, how, pool, mem, arena, lastRemainder, top, limit);
      }
    }

    /** The bin of a large request, then the bins above. */
    method SearchBins(nb: nat, idx: nat) returns (victim: nat)
      requires Sound(Now(fastbins), NONE) && OnlyLoose(arena, NONE) && nb % 8 == 0 && MINSIZE <= nb && idx == Index(nb)
      requires SmallBinEmpty(rings, nb) && |rings[UNSORTED]| == 1
      modifies this`mem, this`arena, this`rings, this`binmap, this`lastRemainder
      ensures Sound(Now(fastbins), NONE) && OnlyLoose(arena, NONE) && arena.end == old(arena).end
      ensures victim == 0 ==> mem == old(mem) && arena == old(arena) && NoneFits(arena, nb)
      ensures victim == 0 ==> lastRemainder == old(lastRemainder)
      ensures victim != 0 ==> IsBestFit(old(arena), victim, nb) && GivenFree(old(mem), old(arena), mem, arena, victim)
      ensures victim != 0 ==> nb <= arena.at[victim].size < nb + MINSIZE
      ensures victim != 0 ==> Parted(nb, old(lastRemainder), victim + 8, BestFit, old(arena), arena, lastRemainder)
      ensures victim != 0 ==> exists i, k :: LastThatFits(old(arena), old(rings), i, k, victim, nb)
    {
      victim := 0;
      if nb >= MIN_LARGE_SIZE {
        victim := SearchOwnBin(nb, idx);
      } else {
        IndexInRange(nb);
        assert TooSmallAfter(Now(fastbins), idx, 0, nb);
      }
      if victim == 0 {
        victim := SearchHigher(nb, idx);
      }
    }

    /** The smallest chunk that is large enough in the bin of a large request. */
    method SearchOwnBin(nb: nat, idx: nat) returns (victim: nat)
      requires Sound(Now(fastbins), NONE) && OnlyLoose(arena, NONE) && nb % 8 == 0 && MIN_LARGE_SIZE <= nb
      requires idx == Index(nb) && |rings[UNSORTED]| == 1
      modifies this`mem, this`arena, this`rings
      ensures Sound(Now(fastbins), NONE) && OnlyLoose(arena, NONE) && arena.end == old(arena).end
      ensures idx < NBINS && |rings| == NBINS
      ensures victim == 0 ==> mem == old(mem) && arena == old(arena) && rings == old(rings)
      ensures victim == 0 ==> TooSmallAfter(Now(fastbins), idx, 0, nb)
      ensures victim != 0 ==> IsBestFit(old(arena), victim, nb) && GivenFree(old(mem), old(arena), mem, arena, victim)
      ensures victim != 0 ==> nb <= arena.at[victim].size < nb + MINSIZE
      ensures victim != 0 ==> Parted(nb, lastRemainder, victim + 8, BestFit, old(arena), arena, lastRemainder)
      ensures victim != 0 ==> exists i, k :: LastThatFits(old(arena), old(rings), i, k, victim, nb)
    {
      ghost var s, k := Now(fastbins), 0;
      IndexInRange(nb);
      victim, k := ScanBin(idx, nb);
      if victim != 0 {
        FitInBin(s, idx, k, nb);
        assert LastThatFits(s.arena, s.rings, idx, k, victim, nb);
        var split := Carve(victim, nb, idx, k);
        CarvedParts(s.arena, Now(fastbins), victim, nb, split, lastRemainder, lastRemainder);
      }
    }

    /** The last chunk of the first bin above that is not empty; the rest of it is advertised as last remainder. */
    method SearchHigher(nb: nat, idx: nat) returns (victim: nat)
      requires Sound(Now(fastbins), NONE) && OnlyLoose(arena, NONE) && nb % 8 == 0 && MINSIZE <= nb && idx == Index(nb)
      requires |rings| == NBINS && |rings[UNSORTED]| == 1 && idx < NBINS && TooSmallAfter(Now(fastbins), idx, 0, nb)
      modifies this`mem, this`arena, this`rings, this`binmap, this`lastRemainder
      ensures Sound(Now(fastbins), NONE) && OnlyLoose(arena, NONE) && arena.end == old(arena).end
      ensures victim == 0 ==> mem == old(mem) && arena == old(arena) && NoneFits(arena, nb)
      ensures victim == 0 ==> lastRemainder == old(lastRemainder)
      ensures victim != 0 ==> IsBestFit(old(arena), victim, nb) && GivenFree(old(mem), old(arena), mem, arena, victim)
      ensures victim != 0 ==> nb <= arena.at[victim].size < nb + MINSIZE
      ensures victim != 0 ==> Parted(nb, old(lastRemainder), victim + 8, BestFit, old(arena), arena, lastRemainder)
      ensures victim != 0 ==> exists i, k :: LastThatFits(old(arena), old(rings), i, k, victim, nb)
    {
      ghost var i, last := idx, lastRemainder;
      IndexInRange(nb);
      victim, i := ScanHigher(idx);
      ghost var s := Now(fastbins);
      assert TooSmallAfter(s, idx, 0, nb);
      if victim == 0 {
        NothingFits(s, idx, nb);
      } else {
        FitInHigher(s, idx, i, nb);
        assert LastThatFits(s.arena, s.rings, i, |rings[i]| - 1, victim, nb);
        var split := Carve(victim, nb, i, |rings[i]| - 1);
        if split && nb < MIN_LARGE_SIZE {
          lastRemainder := victim + nb;
        }
        CarvedParts(s.arena, Now(fastbins), victim, nb, split, last, lastRemainder);
      }
    }

    /** Serve the request from the top, or ask the system for more. */
    method UseTop(nb: nat) returns (block: nat, ghost how: Source, ghost pool: Arena)
      requires Ready() && nb % 8 == 0 && MINSIZE <= nb && nb + MINSIZE < TWO_32 && NoneFits(arena, nb)
      requires HaveFast(maxFast) ==> nb < MIN_LARGE_SIZE
      modifies this
      ensures how != FromFastbin
      ensures Ready()
      ensures Outcome(nb, old(lastRemainder), block, how, pool, old(mem), old(arena), mem, arena, lastRemainder,
        top, limit)
      decreases HaveFast(maxFast), 1
    {
      ghost var m0, a0, last := mem, arena, lastRemainder;
      ZeroNotIn(arena);
      TopHead(Now(fastbins));
      var size := SizeOf(Head(mem, top));
      if size >= nb + MINSIZE {
        var victim := SplitTop(nb);
        AlignedAt(Now(fastbins), victim);
        block, how, pool := victim + 8, FromTop, a0;
        ServedOutcome(nb, last, block, how, m0, a0, mem, arena, lastRemainder, top, limit);
      } else {
        block, how, pool := SysMalloc(nb);
      }
    }

    /**
     * The first top: from start, which is aligned, to the page boundary after start + size, if there is
     * room for it.
     */
    method FirstTop(start: nat, size: nat)
      requires Sound(Now(fastbins), NONE) && OnlyLoose(arena, NONE) && FlagsOk(maxFast, arena) && arena.base % 8 == 0
      requires top == bins && start == arena.base == arena.end && brk == start + size <= limit < TWO_32
      requires size % 8 == 0 && MINSIZE <= size
      modifies this`mem, this`arena, this`top, this`brk
      ensures Ready() && Spared(old(mem), old(arena), mem, arena, NONE)
      ensures top == start && top in arena.at && arena.at[top].size >= size && old(arena).end <= arena.end
      ensures arena.end == if PageUp(start + size) <= limit then PageUp(start + size) else start + size
    {
      ghost var s := Now(fastbins);
      ZeroNotIn(arena);
      var correction := 0;
      if (start + 8) % 8 != 0 {
        assert false;
      }
      var endMisalign := start + size + correction;
      correction := correction + PageUp(endMisalign) - endMisalign;
      PageEnd(start, size);
      var end := Sbrk(correction);
      if end == -1 {
        correction := 0;
        end := Sbrk(0);
      }
      var topSize := end - start + correction;
      FirstTopSound(s, topSize);
      mem := SetHead(mem, start, topSize);
      top := start;
      arena := FirstTopStep(s, topSize).arena;
      assert Now(fastbins) == FirstTopStep(s, topSize);
      ZeroNotIn(arena);
      SameFlags(s.arena, arena, maxFast);
    }

    /** The memory just obtained, [start, start + size), is added to the top, or becomes the first top. */
    method Extend(start: nat, size: nat, oldSize: nat, ghost nb: nat, ghost e: nat)
      requires Sound(Now(fastbins), NONE) && OnlyLoose(arena, NONE) && FlagsOk(maxFast, arena) && arena.base % 8 == 0
      requires start == arena.end && brk == arena.end + size <= limit < TWO_32 && oldSize == TopSize(arena, top)
      requires size % 8 == 0 && MINSIZE <= nb && nb + MINSIZE <= size + oldSize && e == start + size
      modifies this`mem, this`arena, this`top, this`brk
      ensures Ready() && Spared(old(mem), old(arena), mem, arena, NONE)
      ensures top in arena.at && arena.at[top].size >= nb + MINSIZE && old(arena).end <= arena.end
      ensures arena.end == if old(arena).base == old(arena).end && PageUp(e) <= limit then PageUp(e) else e
      ensures if old(arena).base == old(arena).end then top == old(arena).base
        else top == old(top) && Has(old(arena), top, Top)
      ensures TopSize(old(arena), top) == oldSize && (top in old(arena).at ==> Has(old(arena), top, Top))
    {
      ghost var s := Now(fastbins);
      if start == top + oldSize {
        ZeroNotIn(arena);
        GrownOnce(s);
        GrowSound(s, size);
        mem := SetHead(mem, top, size + oldSize);
        arena := GrownTop(arena, top, size);
        assert Now(fastbins) == GrowStep(s, size);
        ZeroNotIn(arena);
        SameFlags(s.arena, arena, maxFast);
      } else {
        FirstTime(s);
        FirstTop(start, size);
      }
    }

    /** The request is served from the top, once that has been extended. */
    method GrowAndSplit(nb: nat, start: nat, size: nat, oldSize: nat) returns (block: nat)
      requires Sound(Now(fastbins), NONE) && OnlyLoose(arena, NONE) && FlagsOk(maxFast, arena) && arena.base % 8 == 0
      requires nb % 8 == 0 && MINSIZE <= nb && nb + MINSIZE < TWO_32 && NoneFits(arena, nb) && NoneFast(arena)
      requires start == arena.end && brk == arena.end + size <= limit < TWO_32
        && oldSize == TopSize(arena, top) < nb + MINSIZE
      requires size == SysRequest(nb, oldSize) && 0 < size < 0x8000_0000
      modifies this`mem, this`arena, this`top, this`brk
      ensures Ready()
      ensures Outcome(nb, old(lastRemainder), block, FromTop, old(arena), old(mem), old(arena), mem, arena,
        lastRemainder, top, limit)
    {
      ghost var m0, a0 := mem, arena;
      TopUp(nb, start, size, oldSize);
      ghost var m1, a1 := mem, arena;
      var victim := SplitTop(nb);
      AlignedAt(Now(fastbins), victim);
      block := victim + 8;
      ToppedUpOutcome(nb, lastRemainder, m0, a0, m1, a1, mem, arena, top, limit, victim);
    }

    /** The top is extended by what the system gave. */
    method TopUp(nb: nat, start: nat, size: nat, oldSize: nat)
      requires Sound(Now(fastbins), NONE) && OnlyLoose(arena, NONE) && FlagsOk(maxFast, arena) && arena.base % 8 == 0
      requires nb % 8 == 0 && MINSIZE <= nb && nb + MINSIZE < TWO_32
      requires start == arena.end && brk == arena.end + size <= limit < TWO_32
        && oldSize == TopSize(arena, top) < nb + MINSIZE
      requires size == SysRequest(nb, oldSize) && 0 < size < 0x8000_0000
      modifies this`mem, this`arena, this`top, this`brk
      ensures Ready() && ToppedUp(nb, old(mem), old(arena), mem, arena, top, limit)
    {
      ghost var e := start + size;
      RequestCovers(nb, oldSize);
      SystemGrows(nb, oldSize, arena.base == arena.end, arena.end, e, limit);
      Extend(start, size, oldSize, nb, e);
    }

    /** sYSMALLOc: consolidate and start again, or extend the top. */
    method SysMalloc(nb: nat) returns (block: nat, ghost how: Source, ghost pool: Arena)
      requires Ready() && nb % 8 == 0 && MINSIZE <= nb && nb + MINSIZE < TWO_32 && NoneFits(arena, nb)
      requires TopSize(arena, top) < nb + MINSIZE && (HaveFast(maxFast) ==> nb < MIN_LARGE_SIZE)
      modifies this
      ensures how != FromFastbin
      ensures Ready()
      ensures Outcome(nb, old(lastRemainder), block, how, pool, old(mem), old(arena), mem, arena, lastRemainder,
        top, limit)
      decreases HaveFast(maxFast), 0
    {
      if HaveFast(maxFast) {
        block, how, pool := StartAgain(nb);
      } else {
        block, how, pool := MoreTop(nb);
      }
    }

    /** With the fastbins emptied, serve the request from the start. */
    method StartAgain(nb: nat) returns (block: nat, ghost how: Source, ghost pool: Arena)
      requires Ready() && nb % 8 == 0 && MINSIZE <= nb < MIN_LARGE_SIZE && NoneFits(arena, nb)
      requires TopSize(arena, top) < nb + MINSIZE && HaveFast(maxFast)
      modifies this
      ensures how != FromFastbin
      ensures Ready()
      ensures Outcome(nb, old(lastRemainder), block, how, pool, old(mem), old(arena), mem, arena, lastRemainder,
        top, limit)
      decreases HaveFast(maxFast), -1
    {
      ghost var m0, a0, last := mem, arena, lastRemainder;
      ZeroNotIn(arena);
      TopIsTooSmall(Now(fastbins), nb);
      Consolidate();
      PoolOfConsolidated(a0, arena);
      ghost var m1, a1 := mem, arena;
      PaddedAgain(nb);
      block, how, pool := Malloc(nb - 7);
      NotFromFastbin(nb, last, block, how, pool, m1, a1, mem, arena, lastRemainder, top, limit);
      OutcomeBefore(nb, last, block, how, pool, m0, a0, m1, a1, mem, arena, lastRemainder, top, limit);
    }

    /** Without chunks in fastbins: the system is asked for more memory. */
    method MoreTop(nb: nat) returns (block: nat, ghost how: Source, ghost pool: Arena)
      requires Ready() && nb % 8 == 0 && MINSIZE <= nb && nb + MINSIZE < TWO_32 && NoneFits(arena, nb)
      requires TopSize(arena, top) < nb + MINSIZE && !HaveFast(maxFast)
      modifies this`mem, this`arena, this`top, this`brk
      ensures how != FromFastbin
      ensures Ready()
      ensures Outcome(nb, old(lastRemainder), block, how, pool, old(mem), old(arena), mem, arena, lastRemainder,
        top, limit)
    {
      pool := arena;
      TopHead(Now(fastbins));
      var oldSize := SizeOf(Head(mem, top));
      var size := SysRequest(nb, oldSize);
      var start := -1;
      if 0 < size < 0x8000_0000 {
        start := Sbrk(size);
      }
      if start != -1 {
        how := FromTop;
        block := GrowAndSplit(nb, start, size, oldSize);
      } else {
        block, how := 0, Refused;
        RefusedOutcome(nb, lastRemainder, mem, arena, top, limit);
      }
    }

    /** A request before anything has been freed: the bins need not be searched. */
    method FirstRequests(nb: nat) returns (block: nat, ghost how: Source, ghost pool: Arena)
      requires Valid() && !HaveAny(maxFast) && nb % 8 == 0 && MINSIZE <= nb && nb + MINSIZE < TWO_32
      modifies this
      ensures Ready()
      ensures FirstChoices(nb, old(lastRemainder), block, how, pool, old(arena), old(rings), old(fastbins))
      ensures Outcome(nb, old(lastRemainder), block, how, pool, old(mem), old(arena), mem, arena, lastRemainder,
        top, limit)
      decreases HaveFast(maxFast), 4
    {
      ghost var m0, last := mem, lastRemainder;
      if maxFast == 0 {
        InitState();
      } else {
        BinsEmpty(Now(fastbins), nb, last);
      }
      ghost var m1, a1 := mem, arena;
      ZeroNotIn(arena);
      block, how, pool := UseTop(nb);
      OutcomeBefore(nb, last, block, how, pool, m0, a1, m1, a1, mem, arena, lastRemainder, top, limit);
    }

    /** A small request: a chunk of exactly its size, else the search. */
    method ServeSmall(nb: nat) returns (block: nat, ghost how: Source, ghost pool: Arena)
      requires Ready() && HaveAny(maxFast) && nb % 8 == 0 && MINSIZE <= nb < MIN_LARGE_SIZE && NoneFastExact(arena, nb)
      modifies this
      ensures Ready()
      ensures FirstChoices(nb, old(lastRemainder), block, how, pool, old(arena), old(rings), old(fastbins))
      ensures Outcome(nb, old(lastRemainder), block, how, pool, old(mem), old(arena), mem, arena, lastRemainder,
        top, limit)
      decreases HaveFast(maxFast), 4
    {
      block, pool := TakeSmall(nb);
      how := FromSmallBin;
      if block == 0 {
        block, how, pool := Search(nb, nb / 8);
      }
    }

    /** A large request: the fastbins are emptied first. */
    method ServeLarge(nb: nat) returns (block: nat, ghost how: Source, ghost pool: Arena)
      requires Ready() && HaveAny(maxFast) && nb % 8 == 0 && MIN_LARGE_SIZE <= nb && nb + MINSIZE < TWO_32
      requires NoneFastExact(arena, nb)
      modifies this
      ensures Ready()
      ensures FirstChoices(nb, old(lastRemainder), block, how, pool, old(arena), old(rings), old(fastbins))
      ensures Outcome(nb, old(lastRemainder), block, how, pool, old(mem), old(arena), mem, arena, lastRemainder,
        top, limit)
      decreases HaveFast(maxFast), 4
    {
      var idx := LargebinIndex(nb);
      ghost var m0, a0, last := mem, arena, lastRemainder;
      ZeroNotIn(arena);
      if HaveFast(maxFast) {
        Consolidate();
        PoolOfConsolidated(a0, arena);
      }
      ghost var m1, a1 := mem, arena;
      block, how, pool := Search(nb, idx);
      OutcomeBefore(nb, last, block, how, pool, m0, a0, m1, a1, mem, arena, lastRemainder, top, limit);
    }

    /** mALLOc */
    method Malloc(bytes: nat) returns (block: nat, ghost how: Source, ghost pool: Arena)
      requires Valid()
      modifies this
      ensures Valid() && (!OutOfRange(bytes) ==> Ready())
      ensures OutOfRange(bytes) ==> block == 0 && unchanged(this)
      ensures !OutOfRange(bytes) ==>
        Outcome(Request2Size(bytes), old(lastRemainder), block, how, pool, old(mem), old(arena), mem, arena,
          lastRemainder, top, limit)
      ensures !OutOfRange(bytes) ==>
        FirstChoices(Request2Size(bytes), old(lastRemainder), block, how, pool, old(arena), old(rings), old(fastbins))
      decreases HaveFast(maxFast), 5
    {
      if OutOfRange(bytes) {
        return 0, Refused, arena;
      }
      var nb := Request2Size(bytes);
      if !HaveAny(maxFast) {
        block, how, pool := FirstRequests(nb);
        return;
      }
      FastsOfSize(Now(fastbins), nb);
      if nb <= maxFast {
        block, pool := TakeFast(nb);
        if block != 0 {
          how := FromFastbin;
          return;
        }
      }
      if nb < MIN_LARGE_SIZE {
        block, how, pool := ServeSmall(nb);
      } else {
        block, how, pool := ServeLarge(nb);
      }
    }

    /** The owner of a block writes a word of it. */
    method Store(block: nat, w: nat, v: nat)
      requires Ready() && Live(block) && Payload(arena, block - 8, w)
      modifies this`mem
      ensures Ready() && mem == Set(old(mem), w, v) && PayloadsKept(old(mem), mem, arena, block - 8)
    {
      OwnerWrites(Now(fastbins), block - 8, w, v);
      mem := Set(mem, w, v);
    }
  }

  /** The first request has split a free chunk, and its rest can serve the second, which nothing fits exactly. */
  ghost predicate RestServes(nb1: nat, block1: nat, pool1: Arena, mid: Arena, nb2: nat) {
    && nb1 < 256 && nb2 < 256 && block1 >= 8 && CanSplit(pool1, block1 - 8, nb1)
    && pool1.at[block1 - 8].size - nb1 > nb2 + 16 && NoneFastExact(mid, nb2) && NoneExact(mid, nb2)
  }

  /**
   * Two small requests in a row: when the first one had to split a free chunk, the second block follows
   * the first directly, and what is left after it is the last remainder again.
   */
  method ConsecutiveRequests(h: Allocator, bytes1: nat, bytes2: nat)
    returns (block1: nat, block2: nat, ghost pool1: Arena, ghost mid: Arena)
    requires h.Valid() && !OutOfRange(bytes1) && !OutOfRange(bytes2)
    modifies h
    ensures h.Ready()
    ensures RestServes(Request2Size(bytes1), block1, pool1, mid, Request2Size(bytes2)) ==>
      && block2 == block1 + Request2Size(bytes1) && h.lastRemainder == block2 - 8 + Request2Size(bytes2)
      && Has(h.arena, h.lastRemainder, Binned(UNSORTED)) && AloneUnsorted(h.arena, h.lastRemainder)
  {
    ghost var how1, how2, pool2;
    block1, how1, pool1 := h.Malloc(bytes1);
    mid := h.arena;
    ghost var nb1, nb2 := Request2Size(bytes1), Request2Size(bytes2);
    if RestServes(nb1, block1, pool1, mid, nb2) {
      OnlyIsFirst(h.Now(h.fastbins), h.lastRemainder);
    }
    block2, how2, pool2 := h.Malloc(bytes2);
  }
}
