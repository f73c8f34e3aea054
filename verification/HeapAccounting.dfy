/**
 * Conservation of bytes in the arena of the allocator (shared/malloc.c): chunks in use, in fastbins,
 * in bins and the top always add up to what sbrk has given, and malloc and free move exactly the
 * bytes of one chunk between the first and the others.
 */
module HeapAccounting {
  import opened BinIndex
  import opened BoundaryTags
  import opened AllocatorState
  import opened AllocatorSteps
  import opened FitSearch

  ghost function SumOf(a: Arena, s: set<nat>): nat
    requires s <= a.at.Keys
  {
    if s == {} then 0 else var p :| p in s; a.at[p].size + SumOf(a, s - {p})
  }

  lemma {:induction false} SumRemove(a: Arena, s: set<nat>, p: nat)
    requires s <= a.at.Keys && p in s
    ensures SumOf(a, s) == a.at[p].size + SumOf(a, s - {p})
    decreases |s|
  {
    var q :| q in s && SumOf(a, s) == a.at[q].size + SumOf(a, s - {q});
    if q != p {
      SumRemove(a, s - {q}, p);
      SumRemove(a, s - {p}, q);
      assert s - {q} - {p} == s - {p} - {q};
    }
  }

  lemma {:induction false} SumUnion(a: Arena, s: set<nat>, t: set<nat>)
    requires s <= a.at.Keys && t <= a.at.Keys && s !! t
    ensures SumOf(a, s + t) == SumOf(a, s) + SumOf(a, t)
    decreases |s|
  {
    if s == {} {
      assert s + t == t;
    } else {
      var p :| p in s;
      SumRemove(a, s, p);
      SumRemove(a, s + t, p);
      SumUnion(a, s - {p}, t);
      assert s + t - {p} == (s - {p}) + t;
    }
  }

  lemma {:induction false} SumSame(a: Arena, a': Arena, s: set<nat>)
    requires s <= a.at.Keys && s <= a'.at.Keys && forall p :: p in s ==> a.at[p].size == a'.at[p].size
    ensures SumOf(a, s) == SumOf(a', s)
    decreases |s|
  {
    if s != {} {
      var p :| p in s;
      SumRemove(a, s, p);
      SumRemove(a', s, p);
      SumSame(a, a', s - {p});
    }
  }

  // ---------------------------------------------------------------- the four kinds of chunks

  ghost function LiveChunks(a: Arena): set<nat> { set p | p in a.at && a.at[p].status.InUse? }

  ghost function FastChunks(a: Arena): set<nat> { set p | p in a.at && a.at[p].status.Fast? }

  ghost function BinnedChunks(a: Arena): set<nat> { set p | p in a.at && a.at[p].status.Binned? }

  ghost function TopChunks(a: Arena): set<nat> { set p | p in a.at && a.at[p].status.Top? }

  ghost function LiveBytes(a: Arena): nat { SumOf(a, LiveChunks(a)) }

  /** Bytes that can serve requests: in fastbins, unsorted, binned, or in the top. */
  ghost function FreeBytes(a: Arena): nat {
    SumOf(a, FastChunks(a)) + SumOf(a, BinnedChunks(a)) + SumOf(a, TopChunks(a))
  }

  ghost function ChunksFrom(a: Arena, q: nat): set<nat> { set p | p in a.at && p >= q }

  /** The chunks from q on cover the arena from there to its end. */
  lemma {:induction false} TotalFrom(a: Arena, q: nat)
    requires Tiling(a) && (q in a.at || q == a.end)
    ensures q <= a.end && SumOf(a, ChunksFrom(a, q)) == a.end - q
    decreases if q <= a.end then a.end - q else 0
  {
    if q == a.end {
      forall p | p in a.at
        ensures p < q
      {
        assert ChunkOk(a, p);
      }
      assert ChunksFrom(a, q) == {};
    } else {
      assert ChunkOk(a, q);
      var n := Next(a, q);
      TotalFrom(a, n);
      SumRemove(a, ChunksFrom(a, q), q);
      forall p | p in a.at
        ensures p >= q && p != q <==> p >= n
      {
        assert Apart(a, q, p);
      }
      assert ChunksFrom(a, q) - {q} == ChunksFrom(a, n);
    }
  }

  /** Bytes in use and free bytes make up the arena. */
  lemma Conservation(a: Arena)
    requires Tiling(a) && OnlyLoose(a, NONE)
    ensures LiveBytes(a) + FreeBytes(a) == a.end - a.base
  {
    TotalFrom(a, a.base);
    ZeroNotIn(a);
    forall p | p in a.at
      ensures p >= a.base
    {
      assert ChunkOk(a, p);
    }
    var l, f, b, t := LiveChunks(a), FastChunks(a), BinnedChunks(a), TopChunks(a);
    assert ChunksFrom(a, a.base) == l + (f + (b + t));
    SumUnion(a, l, f + (b + t));
    SumUnion(a, f, b + t);
    SumUnion(a, b, t);
  }

  /** Chunk p is in use in a and not in a'; the others are in use in both or in neither. */
  lemma OneLess(a: Arena, a': Arena, p: nat)
    requires SameLive(a, a', p) && Has(a, p, InUse)
    ensures LiveBytes(a) == LiveBytes(a') + a.at[p].size
  {
    SumRemove(a, LiveChunks(a), p);
    assert LiveChunks(a) - {p} == LiveChunks(a');
    SumSame(a, a', LiveChunks(a'));
  }

  /** free: the bytes of the block's chunk become free, and nothing else changes hands. */
  lemma FreeConserves(m: Memory, a: Arena, m': Memory, a': Arena, p: nat)
    requires Tiling(a) && OnlyLoose(a, NONE) && Tiling(a') && OnlyLoose(a', NONE)
    requires Kept(m, a, m', a', p) && Has(a, p, InUse)
    ensures LiveBytes(a') == LiveBytes(a) - a.at[p].size
    ensures FreeBytes(a') == FreeBytes(a) + a.at[p].size
  {
    OneLess(a, a', p);
    Conservation(a);
    Conservation(a');
  }

  /** malloc: the bytes of the new chunk come from the free ones and from what sbrk adds. */
  lemma MallocConserves(nb: nat, last: nat, block: nat, how: Source, pool: Arena,
    m: Memory, a: Arena, m': Memory, a': Arena, last': nat, top': nat, limit: nat)
    requires Tiling(a) && OnlyLoose(a, NONE) && Tiling(a') && OnlyLoose(a', NONE)
    requires Outcome(nb, last, block, how, pool, m, a, m', a', last', top', limit)
    ensures block == 0 ==> LiveBytes(a') == LiveBytes(a) && FreeBytes(a') == FreeBytes(a)
    ensures block != 0 ==> block >= 8 && Has(a', block - 8, InUse) && nb <= a'.at[block - 8].size < nb + MINSIZE
    ensures block != 0 ==> LiveBytes(a') == LiveBytes(a) + a'.at[block - 8].size
    ensures block != 0 ==> FreeBytes(a') + a'.at[block - 8].size == FreeBytes(a) + (a'.end - a.end)
  {
    Conservation(a);
    Conservation(a');
    if block == 0 {
      assert LiveChunks(a) == LiveChunks(a');
      SumSame(a, a', LiveChunks(a));
    } else {
      OneLess(a', a, block - 8);
    }
  }
}
