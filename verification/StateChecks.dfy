/**
 * The consistency checks that shared/malloc.c carries for debugging (do_check_chunk and the routines
 * after it), read off the words in memory alone, hold in every state the allocator can be in.
 */
module StateChecks {
  import opened BinIndex
  import opened BoundaryTags
  import opened BinLists
  import opened AllocatorState
  import opened AllocatorSteps
  import opened FitSearch

  /** next_chunk(p) */
  function NextOf(m: Memory, p: nat): nat { p + SizeOf(Head(m, p)) }

  /** inuse(p): the bit is in the head of the chunk after p. */
  predicate InUseBit(m: Memory, p: nat) { Head(m, NextOf(m, p)) % 2 == 1 }

  predicate PrevInUseBit(m: Memory, p: nat) { Head(m, p) % 2 == 1 }

  /** do_check_chunk, for a chunk that is not the top or the top itself. */
  predicate CheckChunk(m: Memory, base: nat, top: nat, p: nat) {
    if p != top then base <= p && NextOf(m, p) <= top else SizeOf(Head(m, p)) >= MINSIZE && PrevInUseBit(m, p)
  }

  /** do_check_free_chunk */
  predicate CheckFreeChunk(m: Memory, base: nat, top: nat, p: nat) {
    var size, next := SizeOf(Head(m, p)), NextOf(m, p);
    && CheckChunk(m, base, top, p)
    && !InUseBit(m, p)
    && size >= MINSIZE && size % 8 == 0 && (p + 8) % 8 == 0
    && Foot(m, next) == size
    && PrevInUseBit(m, p)
    && (next == top || InUseBit(m, next))
    && Bk(m, Fd(m, p)) == p && Fd(m, Bk(m, p)) == p
  }

  /** do_check_inuse_chunk and do_check_remalloced_chunk, without the requested size. */
  predicate CheckInUseChunk(m: Memory, base: nat, top: nat, p: nat) {
    var size, next := SizeOf(Head(m, p)), NextOf(m, p);
    && CheckChunk(m, base, top, p)
    && InUseBit(m, p)
    && size >= MINSIZE && size % 8 == 0 && (p + 8) % 8 == 0
    && (!PrevInUseBit(m, p) ==>
          Foot(m, p) <= p && NextOf(m, p - Foot(m, p)) == p && CheckFreeChunk(m, base, top, p - Foot(m, p)))
    && (if next == top then PrevInUseBit(m, next) && SizeOf(Head(m, next)) >= MINSIZE
        else !InUseBit(m, next) ==> CheckFreeChunk(m, base, top, next))
  }

  lemma TagsOf(s: State, p: nat)
    requires Sound(s, NONE) && p in s.arena.at && p != s.top
    ensures NextOf(s.mem, p) == Next(s.arena, p) && Next(s.arena, p) in s.arena.at && p != NONE
    ensures SizeOf(Head(s.mem, p)) == s.arena.at[p].size
    ensures InUseBit(s.mem, p) <==> Used(s.arena.at[p].status)
    ensures PrevInUseBit(s.mem, p) <==> PrevUsed(s.arena, p)
    ensures CheckChunk(s.mem, s.arena.base, s.top, p)
  {
    ZeroNotIn(s.arena);
    LastIsTop(s, NONE, p);
    HeadOf(s, NONE, p);
    var n := Next(s.arena, p);
    assert ChunkOk(s.arena, p) && ChunkOk(s.arena, n);
    HeadOf(s, NONE, n);
    assert Apart(s.arena, p, s.top);
  }

  lemma FreeChunksCheck(s: State, p: nat)
    requires Sound(s, NONE) && p in s.arena.at && s.arena.at[p].status.Binned?
    ensures CheckFreeChunk(s.mem, s.arena.base, s.top, p)
  {
    var a := s.arena;
    if p == s.top {
      TopIsLast(s, NONE);
    }
    TagsOf(s, p);
    FreeChunk(s, p);
    assert Aligned(a, p) && ChunkOk(a, p);
    var n := Next(a, p);
    if n != s.top {
      TagsOf(s, n);
    }
    var i := a.at[p].status.bin;
    var k := PositionOf(s.mem, s.bins, a, s.rings, p);
    assert BinOk(s.mem, s.bins, a, i, s.rings[i]);
    assert Linked(s.mem, s.rings[i], k) && Linked(s.mem, s.rings[i], k - 1);
  }

  lemma InUseChunksCheck(s: State, p: nat)
    requires Sound(s, NONE) && OnlyLoose(s.arena, NONE) && p in s.arena.at && Used(s.arena.at[p].status)
    ensures CheckInUseChunk(s.mem, s.arena.base, s.top, p)
  {
    var a := s.arena;
    if p == s.top {
      TopIsLast(s, NONE);
    }
    TagsOf(s, p);
    assert Aligned(a, p) && ChunkOk(a, p);
    if !PrevUsed(a, p) {
      PrevFree(s, p);
      var q := a.at[p].before;
      assert p - Foot(s.mem, p) == q;
      FreeChunksCheck(s, q);
      if q == s.top {
        TopIsLast(s, NONE);
      }
      TagsOf(s, q);
    }
    NeighbourAfter(s, p);
  }

  /** do_check_remalloced_chunk, and do_check_malloced_chunk of a chunk that was not in a fastbin. */
  lemma MallocedChunkCheck(s: State, nb: nat, last: nat, block: nat, how: Source, pool: Arena,
    m: Memory, a: Arena, last': nat, limit: nat)
    requires Sound(s, NONE) && OnlyLoose(s.arena, NONE) && how != Refused
    requires Outcome(nb, last, block, how, pool, m, a, s.mem, s.arena, last', s.top, limit)
    ensures block >= 8 && CheckInUseChunk(s.mem, s.arena.base, s.top, block - 8)
    ensures nb <= SizeOf(Head(s.mem, block - 8)) < nb + MINSIZE
    ensures how != FromFastbin ==> PrevInUseBit(s.mem, block - 8)
  {
    var p := block - 8;
    if p == s.top {
      TopIsLast(s, NONE);
    }
    InUseChunksCheck(s, p);
    TagsOf(s, p);
  }

  lemma NeighbourAfter(s: State, p: nat)
    requires Sound(s, NONE) && OnlyLoose(s.arena, NONE) && p in s.arena.at && Used(s.arena.at[p].status)
      && Next(s.arena, p) in s.arena.at
    ensures var n := Next(s.arena, p);
      if n == s.top then PrevInUseBit(s.mem, n) && SizeOf(Head(s.mem, n)) >= MINSIZE
      else !InUseBit(s.mem, n) ==> CheckFreeChunk(s.mem, s.arena.base, s.top, n)
  {
    var a, n := s.arena, Next(s.arena, p);
    assert ChunkOk(a, p) && ChunkOk(a, n);
    ZeroNotIn(a);
    if n == s.top {
      HeadOf(s, NONE, n);
    } else {
      TagsOf(s, n);
      LastIsTop(s, NONE, n);
      if !Used(a.at[n].status) {
        FreeChunksCheck(s, n);
      }
    }
  }

  /** The part of do_check_malloc_state about regular bin i, from the last chunk of its list to the first. */
  lemma BinsCheck(s: State, i: nat, k: nat)
    requires Sound(s, NONE) && 2 <= i < NBINS && 1 <= k < |s.rings[i]|
    ensures var p := s.rings[i][k];
      && Bit(s.binmap[i / 32], i % 32)
      && CheckFreeChunk(s.mem, s.arena.base, s.top, p)
      && Index(SizeOf(Head(s.mem, p))) == i
      && Bk(s.mem, p) == s.rings[i][k - 1]
      && (k > 1 ==> SizeOf(Head(s.mem, Bk(s.mem, p))) >= SizeOf(Head(s.mem, p)))
  {
    var p := s.rings[i][k];
    assert Marked(s.binmap, i);
    RingHead(s, i, k);
    FreeChunksCheck(s, p);
    assert BinSized(s.arena, i, s.rings[i]) && SizedFor(s.arena, p, i);
    if k > 1 {
      RingHead(s, i, k - 1);
      SameBin(s, i, k - 1, k);
    }
  }

  /** The part about fastbin j: chunks of one size that keep their use bit. */
  lemma FastbinsCheck(s: State, j: nat, k: nat)
    requires Sound(s, NONE) && OnlyLoose(s.arena, NONE) && j < NFASTBINS && k < |s.fasts[j]|
    ensures var p := s.fasts[j][k];
      && j <= 7 && SizeOf(Head(s.mem, p)) == 8 * j + 16
      && CheckInUseChunk(s.mem, s.arena.base, s.top, p)
      && p == (if k == 0 then s.heads[j] else Fd(s.mem, s.fasts[j][k - 1]))
  {
    var p := s.fasts[j][k];
    assert FastOk(s.mem, s.arena, j, s.heads[j], s.fasts[j]) && FastMember(s.arena, p, j);
    InUseChunksCheck(s, p);
    ZeroNotIn(s.arena);
    HeadOf(s, NONE, p);
    assert k > 0 ==> Fd(s.mem, s.fasts[j][k - 1]) == FirstOf(s.fasts[j], k);
  }
}
