/**
 * What the routines of the allocator (shared/malloc.c) do to its state beyond single steps: taking a
 * chunk back and merging it with its free neighbours, the flags kept in max_fast, and how steps that
 * leave live blocks alone compose.
 */
module AllocatorSteps {
  import opened BinIndex
  import opened BoundaryTags
  import opened BinLists
  import opened AllocatorState

  const MAX_FAST: nat := 72                       // request2size(DEFAULT_MXFAST)

  // ---------------------------------------------------------------- flags in the low bits of max_fast

  predicate HaveAny(mf: nat) { mf % 2 == 1 }

  predicate HaveFast(mf: nat) { mf / 2 % 2 == 1 }

  function SetAny(mf: nat): nat { mf / 2 * 2 + 1 }

  function SetFast(mf: nat): nat { mf / 4 * 4 + 3 }

  function ClearFast(mf: nat): nat { mf / 4 * 4 + mf % 2 }

  lemma FlagValues(mf: nat)
    requires MAX_FAST <= mf < MAX_FAST + 4
    ensures MAX_FAST <= SetAny(mf) < MAX_FAST + 4 && HaveAny(SetAny(mf)) && HaveFast(SetAny(mf)) == HaveFast(mf)
    ensures SetFast(mf) == MAX_FAST + 3 && HaveAny(SetFast(mf)) && HaveFast(SetFast(mf))
    ensures MAX_FAST <= ClearFast(mf) <= MAX_FAST + 1 && HaveAny(ClearFast(mf)) == HaveAny(mf)
      && !HaveFast(ClearFast(mf))
  {
    SetAnyValue(mf);
    SetFastValue(mf);
    ClearFastValue(mf);
    HaveValues(mf);
    HaveValues(SetAny(mf));
    HaveValues(SetFast(mf));
    HaveValues(ClearFast(mf));
  }

  lemma HaveValues(mf: nat)
    requires MAX_FAST <= mf < MAX_FAST + 4
    ensures HaveAny(mf) <==> mf == 73 || mf == 75
    ensures HaveFast(mf) <==> mf >= 74
  {
  }

  lemma SetAnyValue(mf: nat)
    requires MAX_FAST <= mf < MAX_FAST + 4
    ensures SetAny(mf) == if mf < 74 then 73 else 75
  {
  }

  lemma SetFastValue(mf: nat)
    requires MAX_FAST <= mf < MAX_FAST + 4
    ensures SetFast(mf) == 75
  {
  }

  lemma ClearFastValue(mf: nat)
    requires MAX_FAST <= mf < MAX_FAST + 4
    ensures ClearFast(mf) == if mf == 73 || mf == 75 then 73 else 72
  {
  }

  ghost predicate NoneListed(a: Arena) {
    forall p {:trigger a.at[p]} :: p in a.at ==> !Listed(a.at[p].status)
  }

  ghost predicate NoneFast(a: Arena) {
    forall p {:trigger a.at[p]} :: p in a.at ==> !a.at[p].status.Fast?
  }

  /** The flags may be set for nothing, but are never clear when there are such chunks. */
  ghost predicate FlagsOk(mf: nat, a: Arena) {
    && MAX_FAST <= mf < MAX_FAST + 4
    && (HaveFast(mf) ==> HaveAny(mf))
    && (!HaveAny(mf) ==> NoneListed(a))
    && (!HaveFast(mf) ==> NoneFast(a))
  }

  // ---------------------------------------------------------------- composing steps

  lemma SameLiveTwice(a: Arena, a1: Arena, a2: Arena, x: nat)
    requires SameLive(a, a1, x) && (SameLive(a1, a2, NONE) || SameLive(a1, a2, x)) && NONE !in a1.at && NONE !in a2.at
    ensures SameLive(a, a2, x)
  {
  }

  lemma PayloadsTwice(m: Memory, m1: Memory, m2: Memory, a: Arena, a1: Arena, x: nat)
    requires PayloadsKept(m, m1, a, x) && SameLive(a, a1, x)
      && (PayloadsKept(m1, m2, a1, NONE) || PayloadsKept(m1, m2, a1, x))
    requires NONE !in a1.at
    ensures PayloadsKept(m, m2, a, x)
  {
    forall p | p in a.at && p != x && a.at[p].status.InUse?
      ensures PayloadKept(m, m2, a, p)
    {
      assert PayloadKept(m, m1, a, p);
      assert p in a1.at && p != NONE && PayloadKept(m1, m2, a1, p);
    }
  }

  /** What a routine that takes back chunk x, or no chunk, leaves alone. */
  ghost predicate Spared(m: Memory, a: Arena, m': Memory, a': Arena, x: nat) {
    SameLive(a, a', x) && PayloadsKept(m, m', a, x) && a'.base == a.base && NONE !in a.at && NONE !in a'.at
  }

  ghost predicate Kept(m: Memory, a: Arena, m': Memory, a': Arena, x: nat) {
    Spared(m, a, m', a', x) && a'.end == a.end
  }

  /** What a routine that hands out chunk p leaves alone. */
  ghost predicate Given(m: Memory, a: Arena, m': Memory, a': Arena, p: nat) {
    && SameLive(a', a, p)
    && Has(a', p, InUse) && PayloadsKept(m, m', a, NONE)
    && a'.base == a.base && NONE !in a.at && NONE !in a'.at
  }

  /** The same when p was free before: then the chunk before p is in use. */
  ghost predicate GivenFree(m: Memory, a: Arena, m': Memory, a': Arena, p: nat) {
    Given(m, a, m', a', p) && PrevUsed(a', p)
  }

  lemma SparedThenGiven(m: Memory, a: Arena, m1: Memory, a1: Arena, m2: Memory, a2: Arena, p: nat)
    requires Spared(m, a, m1, a1, NONE) && Given(m1, a1, m2, a2, p)
    ensures Given(m, a, m2, a2, p)
  {
    PayloadsTwice(m, m1, m2, a, a1, NONE);
  }

  lemma GivenThenSpared(m: Memory, a: Arena, m1: Memory, a1: Arena, m2: Memory, a2: Arena, p: nat)
    requires Given(m, a, m1, a1, p) && Spared(m1, a1, m2, a2, NONE)
    ensures Given(m, a, m2, a2, p)
  {
    forall q | q in a.at && q != NONE && a.at[q].status.InUse?
      ensures PayloadKept(m, m2, a, q)
    {
      assert PayloadKept(m, m1, a, q);
      assert q in a1.at && PayloadKept(m1, m2, a1, q);
    }
  }

  lemma KeptAgain(m: Memory, a: Arena, m1: Memory, a1: Arena, m2: Memory, a2: Arena, x: nat)
    requires Kept(m, a, m1, a1, x) && (Kept(m1, a1, m2, a2, NONE) || Kept(m1, a1, m2, a2, x))
    ensures Kept(m, a, m2, a2, x)
  {
    SameLiveTwice(a, a1, a2, x);
    PayloadsTwice(m, m1, m2, a, a1, x);
  }

  // ---------------------------------------------------------------- neighbours of a chunk

  /** When the PREV_INUSE bit of p is clear, the foot before p leads to a binned chunk. */
  lemma PrevFree(s: State, p: nat)
    requires Sound(s, NONE) && OnlyLoose(s.arena, NONE) && p in s.arena.at && !PrevUsed(s.arena, p)
    ensures var q := s.arena.at[p].before;
      && q in s.arena.at && s.arena.at[q].status.Binned? && q < p
      && PrevUsed(s.arena, q)
      && Foot(s.mem, p) == s.arena.at[q].size && q + Foot(s.mem, p) == p && Next(s.arena, q) == p
  {
    var q := s.arena.at[p].before;
    assert ChunkOk(s.arena, p) && ChunkOk(s.arena, q);
    if q == s.top {
      TopIsLast(s, NONE);
    }
    assert TagOk(s.mem, s.arena, NONE, q);
  }

  /** The chunk after one that is being assembled, and the use bit after that. */
  lemma NextChunk(s: State, c: nat)
    requires Sound(s, c) && OnlyLoose(s.arena, c) && Has(s.arena, c, Loose) && Next(s.arena, c) != s.top
    ensures var n := Next(s.arena, c);
      && n in s.arena.at && n != c && !s.arena.at[n].status.Loose?
      && !s.arena.at[n].status.Top?
      && SizeOf(Head(s.mem, n)) == s.arena.at[n].size
      && Next(s.arena, n) in s.arena.at
      && (Head(s.mem, Next(s.arena, n)) % 2 == 1 <==> Used(s.arena.at[n].status))
      && (s.arena.at[n].status.Binned? ==>
            var nn := Next(s.arena, n);
            Used(s.arena.at[nn].status) && Head(s.mem, nn) == s.arena.at[nn].size)
  {
    var a := s.arena;
    LooseIsNotTop(s, c, c);
    LastIsTop(s, c, c);
    var n := Next(a, c);
    assert ChunkOk(a, c) && ChunkOk(a, n);
    LastIsTop(s, c, n);
    HeadOf(s, c, n);
    var nn := Next(a, n);
    assert ChunkOk(a, nn);
    HeadOf(s, c, nn);
    assert TagOk(s.mem, a, c, nn);
  }

  lemma LooseIsNotTop(s: State, x: nat, c: nat)
    requires Sound(s, x) && Has(s.arena, c, Loose)
    ensures c != s.top && s.top in s.arena.at
  {
    assert ChunkOk(s.arena, c);
  }

  /** The chunk that backward consolidation leaves: it ends where p ended. */
  ghost predicate Taken(s: State, c: nat) {
    Sound(s, c) && OnlyLoose(s.arena, c) && Has(s.arena, c, Loose) && PrevUsed(s.arena, c)
  }

  lemma TakenAlone(s: State, p: nat)
    requires Sound(s, NONE) && OnlyLoose(s.arena, NONE) && Has(s.arena, p, InUse) && PrevUsed(s.arena, p)
    ensures var a' := WithStatus(s.arena, p, Loose);
      Taken(s.(arena := a'), p) && Kept(s.mem, s.arena, s.mem, a', p)
  {
    TakeBackSound(s, p);
    ZeroNotIn(s.arena);
    assert ChunkOk(s.arena, p);
  }

  /** s1 is s with p taken back and the free chunk q before it unlinked. */
  ghost predicate PrevUnlinked(s: State, p: nat, q: nat, s1: State) {
    && Sound(s, NONE) && OnlyLoose(s.arena, NONE)
    && Has(s.arena, p, InUse)
    && q in s.arena.at && s.arena.at[q].status.Binned? && Next(s.arena, q) == p && PrevUsed(s.arena, q)
    && var a1 := WithStatus(s.arena, p, Loose);
       Sound(s1, p) && s1.arena == WithStatus(a1, q, Loose) && PayloadsKept(s.mem, s1.mem, a1, NONE)
  }

  lemma TakenWithPrev(s: State, p: nat, q: nat, s1: State)
    requires PrevUnlinked(s, p, q, s1)
    ensures var a' := Merged(s1.arena, q);
      Taken(s1.(arena := a'), q) && a'.at[q].size == s.arena.at[q].size + s.arena.at[p].size
  {
    ZeroNotIn(s.arena);
    assert ChunkOk(s.arena, q) && ChunkOk(s.arena, p);
    MergeSound(s1, q, p);
    MergedTiling(s1.arena, q);
    assert Next(s1.arena, q) == p;
    MergedLoose(s1.arena, q);
  }

  lemma KeptWithPrev(m: Memory, m1: Memory, a: Arena, p: nat, q: nat)
    requires Tiling(a) && Has(a, p, InUse) && q in a.at && a.at[q].status.Binned? && Next(a, q) == p
    requires PayloadsKept(m, m1, WithStatus(a, p, Loose), NONE)
    ensures var a2 := WithStatus(WithStatus(a, p, Loose), q, Loose);
      Kept(m, a, m1, Merged(a2, q), p)
  {
    var a1 := WithStatus(a, p, Loose);
    var a2 := WithStatus(a1, q, Loose);
    StatusTiling(a, p, Loose);
    StatusTiling(a1, q, Loose);
    MergedTiling(a2, q);
    MergedSame(a2, q);
    ZeroNotIn(a);
    ZeroNotIn(Merged(a2, q));
    assert SameLive(a, a2, p);
    SameLiveTwice(a, a2, Merged(a2, q), p);
    forall r | r in a.at && r != p && a.at[r].status.InUse?
      ensures PayloadKept(m, m1, a, r)
    {
      assert PayloadKept(m, m1, a1, r);
    }
  }

  /** No loose chunk but the merged one remains. */
  lemma MergedLoose(a: Arena, q: nat)
    requires Tiling(a) && Has(a, q, Loose) && Has(a, Next(a, q), Loose)
    requires forall r {:trigger a.at[r]} :: r in a.at && a.at[r].status.Loose? ==> r == q || r == Next(a, q)
    ensures OnlyLoose(Merged(a, q), q)
    ensures q != a.base && PrevUsed(a, q) ==> PrevUsed(Merged(a, q), q)
  {
    MergedSame(a, q);
    assert ChunkOk(a, q);
    forall r | r in Merged(a, q).at && Merged(a, q).at[r].status.Loose?
      ensures r == q
    {
      assert r != Next(a, q);
      assert r != q ==> SameAt(a, Merged(a, q), r);
    }
    if q != a.base {
      assert a.at[q].before != q && ChunkOk(a, a.at[q].before);
      assert SameAt(a, Merged(a, q), a.at[q].before);
    }
  }

  /** The head of the next chunk is its size without the use bit. */
  function ClearUse(m: Memory, n: nat, size: nat): (m': Memory)
    ensures forall p {:trigger Head(m', p)} :: Head(m', p) == if p == n then size else Head(m, p)
  {
    Set(m, n + 4, size)
  }

  lemma ForwardCleared(s: State, c: nat)
    requires Taken(s, c) && Next(s.arena, c) in s.arena.at
    ensures var n := Next(s.arena, c);
      var m' := ClearUse(s.mem, n, s.arena.at[n].size);
      Taken(s.(mem := m'), c) && PayloadsKept(s.mem, m', s.arena, NONE)
  {
    var n := Next(s.arena, c);
    assert ChunkOk(s.arena, c);
    WriteSound(s, c, n + 4, s.arena.at[n].size);
  }

  /** s1 is s with the free chunk after c unlinked. */
  lemma ForwardMerged(s: State, c: nat, s1: State)
    requires Taken(s, c) && Next(s.arena, c) in s.arena.at && s.arena.at[Next(s.arena, c)].status.Binned?
    requires Sound(s1, c) && s1.arena == WithStatus(s.arena, Next(s.arena, c), Loose)
    requires Next(s.arena, Next(s.arena, c)) in s.arena.at
    ensures Taken(s1.(arena := Merged(s1.arena, c)), c)
  {
    assert ChunkOk(s.arena, c);
    assert Next(s1.arena, c) == Next(s.arena, c);
    MergeSound(s1, c, c);
    MergedLoose(s1.arena, c);
  }

  lemma ForwardSame(a: Arena, c: nat)
    requires Tiling(a) && Has(a, c, Loose) && Next(a, c) in a.at && a.at[Next(a, c)].status.Binned?
    requires Next(a, Next(a, c)) in a.at
    ensures var n := Next(a, c);
      var a1 := WithStatus(a, n, Loose);
      Next(a1, c) == n && n in a1.at
      && var a' := Merged(a1, c);
         && c in a'.at && a'.at[c].size == a.at[c].size + a.at[n].size && Next(a', c) == Next(a, n)
           && Next(a, n) in a'.at
         && a'.at[Next(a, n)].status == a.at[Next(a, n)].status && a'.at[Next(a, n)].size == a.at[Next(a, n)].size
         && SameLive(a, a', NONE) && NONE !in a'.at && a'.base == a.base && a'.end == a.end
  {
    var n := Next(a, c);
    var a1 := WithStatus(a, n, Loose);
    assert ChunkOk(a, c) && ChunkOk(a, n) && ChunkOk(a, Next(a, n));
    StatusTiling(a, n, Loose);
    MergedTiling(a1, c);
    MergedSame(a1, c);
    assert SameAt(a1, Merged(a1, c), Next(a, n));
    ZeroNotIn(Merged(a1, c));
    ZeroNotIn(a1);
    SameLiveTwice(a, a1, Merged(a1, c), NONE);
  }

  lemma NoLooseTop(s: State, c: nat)
    requires Taken(s, c) && Next(s.arena, c) == s.top
    ensures OnlyLoose(WithStatus(Merged(s.arena, c), c, Top), NONE)
  {
    LooseIsNotTop(s, c, c);
    var a' := Merged(s.arena, c);
    forall r | r in a'.at && r != c
      ensures !a'.at[r].status.Loose?
    {
      assert r != s.top && r in s.arena.at;
    }
  }

  /** set_head and set_foot finish the chunk that has been taken back. */
  lemma TagsFinished(s: State, c: nat)
    requires Taken(s, c) && Next(s.arena, c) in s.arena.at && Used(s.arena.at[Next(s.arena, c)].status)
    requires Head(s.mem, Next(s.arena, c)) == s.arena.at[Next(s.arena, c)].size
    ensures var m' := SetFoot(SetHead(s.mem, c, s.arena.at[c].size), c, s.arena.at[c].size);
      Sound(s.(mem := m'), NONE) && PayloadsKept(s.mem, m', s.arena, NONE)
  {
    var size := s.arena.at[c].size;
    assert ChunkOk(s.arena, c);
    WriteSound(s, c, c + 4, size + 1);
    var s1 := s.(mem := SetHead(s.mem, c, size));
    WriteSound(s1, c, c + size, size);
    var s2 := s1.(mem := SetFoot(s1.mem, c, size));
    ZeroNotIn(s.arena);
    PayloadsTwice(s.mem, s1.mem, s2.mem, s.arena, s.arena, NONE);
    Settle(s2.mem, s.arena, c);
  }

  lemma StatusKept(m: Memory, m': Memory, a: Arena, p: nat, st: Status)
    requires Tiling(a) && PayloadsKept(m, m', a, NONE) && p in a.at && !a.at[p].status.InUse? && !st.InUse?
    ensures Kept(m, a, m', WithStatus(a, p, st), NONE)
  {
    ZeroNotIn(a);
  }

  /** v is the last node of the unsorted list: its header, when the list is empty. */
  ghost predicate LastIs(rings: seq<seq<nat>>, bins: nat, v: nat) {
    && |rings| == NBINS && |rings[UNSORTED]| >= 1
    && rings[UNSORTED][0] == bins
    && v == rings[UNSORTED][|rings[UNSORTED]| - 1]
  }

  lemma UnsortedHeader(s: State, x: nat)
    requires Sound(s, x)
    ensures LastIs(s.rings, s.bins, Bk(s.mem, s.bins))
    ensures |s.rings[UNSORTED]| >= 1 && s.rings[UNSORTED][0] == s.bins && Ring(s.mem, s.rings[UNSORTED])
    ensures Fd(s.mem, s.bins) == After(s.rings[UNSORTED], 0)
    ensures Bk(s.mem, s.bins) == s.rings[UNSORTED][|s.rings[UNSORTED]| - 1]
  {
    assert BinOk(s.mem, s.bins, s.arena, UNSORTED, s.rings[UNSORTED]);
    var r := s.rings[UNSORTED];
    assert Linked(s.mem, r, 0) && Linked(s.mem, r, |r| - 1);
  }

  /** A chunk that left a fastbin and was taken back: the chunks in use are the same again. */
  lemma PoppedAndTaken(m: Memory, a: Arena, a1: Arena, m': Memory, a2: Arena, p: nat)
    requires SameLive(a1, a, p) && Kept(m, a1, m', a2, p) && NONE !in a.at && a.base == a1.base && a.end == a1.end
    requires p in a1.at && a1.at[p].status.InUse?
    ensures Kept(m, a, m', a2, NONE)
  {
    forall q | q in a.at && q != NONE && a.at[q].status.InUse?
      ensures PayloadKept(m, m', a, q)
    {
      assert q in a1.at && q != p && PayloadKept(m, m', a1, q);
    }
  }

  /** Whether there are chunks in fastbins shows in the lists alone. */
  lemma FastsEmpty(s: State, x: nat)
    requires Sound(s, x)
    ensures NoneFast(s.arena) <==> forall j {:trigger s.fasts[j]} :: 0 <= j < NFASTBINS ==> s.fasts[j] == []
    ensures s.fasts[8] == [] && s.fasts[9] == []
  {
    forall j | 0 <= j < NFASTBINS && s.fasts[j] != []
      ensures j <= 7 && !NoneFast(s.arena)
    {
      assert FastOk(s.mem, s.arena, j, s.heads[j], s.fasts[j]) && FastMember(s.arena, s.fasts[j][0], j);
    }
    if forall j {:trigger s.fasts[j]} :: 0 <= j < NFASTBINS ==> s.fasts[j] == [] {
      forall p | p in s.arena.at
        ensures !s.arena.at[p].status.Fast?
      {
        assert s.arena.at[p].status.Fast? ==> InFast(s.fasts, p, s.arena.at[p].status.index);
      }
    }
  }

  lemma FastNull(m: Memory, a: Arena, j: nat, l: seq<nat>)
    requires Tiling(a) && FastOk(m, a, j, 0, l)
    ensures l == []
  {
    if l != [] {
      assert FastMember(a, l[0], j);
      ZeroNotIn(a);
    }
  }

  lemma FirstIsFast(s: State, j: nat)
    requires Sound(s, NONE) && j < NFASTBINS && s.heads[j] != 0
    ensures !NoneFast(s.arena) && s.heads[j] in s.arena.at && s.arena.at[s.heads[j]].status == Fast(j)
  {
    assert FastOk(s.mem, s.arena, j, s.heads[j], s.fasts[j]);
    assert FastMember(s.arena, s.fasts[j][0], j);
  }

  /** A chunk small enough for a fastbin: the flags in max_fast do not matter. */
  lemma FastIndex(s: State, p: nat, mf: nat)
    requires Sound(s, NONE) && p in s.arena.at && s.arena.at[p].size <= mf && MAX_FAST <= mf < MAX_FAST + 4
    ensures var j := s.arena.at[p].size / 8 - 2;
      0 <= j <= 7 && s.arena.at[p].size == 8 * j + 16
  {
    assert ChunkOk(s.arena, p) && Aligned(s.arena, p);
  }

  // ---------------------------------------------------------------- overwriting the unsorted list

  /**
   * The tags of both parts of p, then the remainder and the header of the unsorted list are linked to
   * each other: the old links of the list are overwritten.
   */
  function RemainderStores(m: Memory, bins: nat, p: nat, nb: nat, rs: nat): Memory {
    Inserted(TwoParts(m, p, nb, rs), p + nb, bins, bins)
  }

  function TwoParts(m: Memory, p: nat, nb: nat, rs: nat): Memory {
    SetFoot(SetHead(SetHead(m, p, nb), p + nb, rs), p + nb, rs)
  }

  /** The memories differ in the links of one node at most. */
  ghost predicate AgreeBut(x: Memory, y: Memory, node: nat) {
    forall w {:trigger w in x} {:trigger w in y} :: w != node + 8 && w != node + 12 ==>
      (w in x <==> w in y) && (w in x ==> x[w] == y[w])
  }

  lemma SetAgrees(x: Memory, y: Memory, node: nat, w: nat, v: nat)
    requires AgreeBut(x, y, node)
    ensures AgreeBut(Set(x, w, v), Set(y, w, v), node)
  {
  }

  lemma LinksOverwritten(x: Memory, y: Memory, node: nat, r: nat)
    requires AgreeBut(x, y, node)
    ensures SetFd(SetBk(x, node, r), node, r) == SetFd(SetBk(y, node, r), node, r)
  {
  }

  lemma TwoPartsAgree(x: Memory, y: Memory, node: nat, p: nat, nb: nat, rs: nat)
    requires AgreeBut(x, y, node)
    ensures AgreeBut(TwoParts(x, p, nb, rs), TwoParts(y, p, nb, rs), node)
  {
    SetAgrees(x, y, node, p + 4, nb + 1);
    var x1, y1 := SetHead(x, p, nb), SetHead(y, p, nb);
    SetAgrees(x1, y1, node, p + nb + 4, rs + 1);
    SetAgrees(SetHead(x1, p + nb, rs), SetHead(y1, p + nb, rs), node, p + nb + rs, rs);
  }

  /** Unlinking p first would make no difference. */
  lemma OverwrittenLinks(m: Memory, bins: nat, p: nat, nb: nat, rs: nat)
    ensures RemainderStores(Unlinked(m, bins, bins), bins, p, nb, rs) == RemainderStores(m, bins, p, nb, rs)
  {
    assert AgreeBut(Unlinked(m, bins, bins), m, bins);
    TwoPartsAgree(Unlinked(m, bins, bins), m, bins, p, nb, rs);
    InsertedAgree(TwoParts(Unlinked(m, bins, bins), p, nb, rs), TwoParts(m, p, nb, rs), bins, p + nb);
  }

  lemma InsertedAgree(x: Memory, y: Memory, bins: nat, r: nat)
    requires AgreeBut(x, y, bins)
    ensures Inserted(x, r, bins, bins) == Inserted(y, r, bins, bins)
  {
    SetAgrees(x, y, bins, r + 12, bins);
    SetAgrees(SetBk(x, r, bins), SetBk(y, r, bins), bins, r + 8, bins);
    LinksOverwritten(SetFd(SetBk(x, r, bins), r, bins), SetFd(SetBk(y, r, bins), r, bins), bins, r);
  }

  /** The rest of a chunk that was split, of this size, is the unsorted list. */
  ghost predicate Rest(a: Arena, rings: seq<seq<nat>>, bins: nat, r: nat, size: int) {
    Has(a, r, Binned(UNSORTED)) && a.at[r].size == size && |rings| == NBINS && rings[UNSORTED] == [bins, r]
  }

  /** The only unsorted chunk p is split, and the remainder replaces it in the list. */
  lemma RemainderSound(s: State, p: nat, nb: nat, rs: nat) returns (s': State)
    requires Sound(s, NONE) && OnlyLoose(s.arena, NONE) && |s.rings[UNSORTED]| == 2 && s.rings[UNSORTED][1] == p
      && p in s.arena.at
    requires nb % 8 == 0 && MINSIZE <= nb && MINSIZE <= rs && nb + rs == s.arena.at[p].size
    ensures s'.mem == RemainderStores(s.mem, s.bins, p, nb, rs)
    ensures s' == s.(mem := s'.mem, arena := s'.arena, rings := s'.rings)
    ensures Sound(s', NONE) && GivenFree(s.mem, s.arena, s'.mem, s'.arena, p) && OnlyLoose(s'.arena, NONE)
    ensures s'.arena.at[p].size == nb && s'.arena.end == s.arena.end
    ensures Rest(s'.arena, s'.rings, s.bins, p + nb, rs)
  {
    var s1 := UnlinkOnly(s, p);
    var s2;
    s2, s' := SplitRemainder(s1, p, nb, rs);
    OverwrittenLinks(s.mem, s.bins, p, nb, rs);
    RemainderGiven(s, s1, s2, s', p, nb);
  }

  /** Unlinking the only unsorted chunk. */
  lemma UnlinkOnly(s: State, p: nat) returns (s1: State)
    requires Sound(s, NONE) && |s.rings[UNSORTED]| == 2 && s.rings[UNSORTED][1] == p && p in s.arena.at
    ensures s.arena.at[p].status.Binned?
    ensures s1.mem == Unlinked(s.mem, s.bins, s.bins) && s1.arena == WithStatus(s.arena, p, Loose)
    ensures s1 == s.(mem := s1.mem, arena := s1.arena, rings := s1.rings) && |s1.rings| > 1
      && s1.rings[UNSORTED] == [s.bins]
    ensures Sound(s1, NONE) && PayloadsKept(s.mem, s1.mem, s.arena, NONE)
  {
    UnsortedHeader(s, NONE);
    UnlinkSound(s, NONE, p, UNSORTED, 1);
    s1 := UnlinkStep(s, p, UNSORTED, 1);
  }

  /** Splitting a loose chunk when the unsorted list is empty: s1 after the tags, s2 after the links. */
  lemma SplitRemainder(s: State, p: nat, nb: nat, rs: nat) returns (s1: State, s2: State)
    requires Sound(s, NONE) && Has(s.arena, p, Loose) && s.rings[UNSORTED] == [s.bins]
    requires nb % 8 == 0 && MINSIZE <= nb && MINSIZE <= rs && nb + rs == s.arena.at[p].size
    ensures s1 == s.(mem := TwoParts(s.mem, p, nb, rs), arena := Split(s.arena, p, nb, Loose))
    ensures Sound(s1, NONE) && PayloadsKept(s.mem, s1.mem, s.arena, NONE) && SameLive(s1.arena, s.arena, p)
      && Has(s1.arena, p + nb, Loose)
    ensures Rest(s2.arena, s2.rings, s.bins, p + nb, rs)
    ensures s2 == s.(mem := RemainderStores(s.mem, s.bins, p, nb, rs),
                     arena := WithStatus(s1.arena, p + nb, Binned(UNSORTED)),
                     rings := s.rings[UNSORTED := [s.bins, p + nb]])
    ensures Sound(s2, NONE) && PayloadsKept(s1.mem, s2.mem, s1.arena, NONE)
  {
    LooseIsNotTop(s, NONE, p);
    SplitSound(s, p, nb);
    SplitTiling(s.arena, p, nb, Loose);
    s1 := SplitStep(s, p, nb);
    InsertSound(s1, NONE, p + nb, UNSORTED, 0);
    assert With(s.rings[UNSORTED], 0, p + nb) == [s.bins, p + nb];
    s2 := InsertStep(s1, p + nb, UNSORTED, 0);
  }

  /** The chunk before one that is split stays in use. */
  lemma SplitPrevUsed(a: Arena, p: nat, nb: nat, st: Status)
    requires Tiling(a) && p in a.at && 0 < nb <= a.at[p].size && PrevUsed(a, p)
    ensures PrevUsed(Split(a, p, nb, st), p)
  {
    assert ChunkOk(a, p);
  }

  /** The status of a chunk further up does not matter. */
  lemma OthersPrevUsed(a: Arena, p: nat, r: nat, st: Status)
    requires Tiling(a) && p in a.at && r in a.at && p < r && PrevUsed(a, p)
    ensures PrevUsed(WithStatus(a, r, st), p)
  {
    assert ChunkOk(a, p);
  }

  /** Splitting and inserting the remainder hands out the first part. */
  lemma SplitGiven(s: State, s1: State, s2: State, p: nat, nb: nat)
    requires Sound(s, NONE) && OnlyLoose(s.arena, p) && Has(s.arena, p, Loose)
    requires nb % 8 == 0 && MINSIZE <= nb && nb + MINSIZE <= s.arena.at[p].size
    requires s1.arena == Split(s.arena, p, nb, Loose) && Tiling(s1.arena) && PayloadsKept(s.mem, s1.mem, s.arena, NONE)
    requires SameLive(s1.arena, s.arena, p) && p + nb in s1.arena.at
    requires s2.arena == WithStatus(s1.arena, p + nb, Binned(UNSORTED)) && PayloadsKept(s1.mem, s2.mem, s1.arena, NONE)
    ensures GivenFree(s.mem, s.arena, s2.mem, s2.arena, p) && OnlyLoose(s2.arena, NONE)
    ensures s2.arena.at[p].size == nb && s2.arena.end == s.arena.end
  {
    SplitTiling(s.arena, p, nb, Loose);
    ZeroNotIn(s.arena);
    ZeroNotIn(s1.arena);
    StatusKept(s1.mem, s2.mem, s1.arena, p + nb, Binned(UNSORTED));
    GivenThenSpared(s.mem, s.arena, s1.mem, s1.arena, s2.mem, s2.arena, p);
    FirstPartPrevUsed(s, p, nb);
  }

  lemma FirstPartPrevUsed(s: State, p: nat, nb: nat)
    requires Sound(s, NONE) && Has(s.arena, p, Loose) && 0 < nb < s.arena.at[p].size
      && Tiling(Split(s.arena, p, nb, Loose))
    ensures PrevUsed(WithStatus(Split(s.arena, p, nb, Loose), p + nb, Binned(UNSORTED)), p)
  {
    FreeChunk(s, p);
    SplitPrevUsed(s.arena, p, nb, Loose);
    OthersPrevUsed(Split(s.arena, p, nb, Loose), p, p + nb, Binned(UNSORTED));
  }

  /** Splitting a loose chunk while the unsorted list is empty. */
  lemma SplitOffSound(s: State, p: nat, nb: nat) returns (s': State)
    requires Sound(s, NONE) && OnlyLoose(s.arena, p) && Has(s.arena, p, Loose) && |s.rings[UNSORTED]| == 1
    requires nb % 8 == 0 && MINSIZE <= nb && nb + MINSIZE <= s.arena.at[p].size
    ensures s'.mem == RemainderStores(s.mem, s.bins, p, nb, s.arena.at[p].size - nb)
    ensures s' == s.(mem := s'.mem, arena := s'.arena, rings := s'.rings)
    ensures Sound(s', NONE) && GivenFree(s.mem, s.arena, s'.mem, s'.arena, p) && OnlyLoose(s'.arena, NONE)
    ensures s'.arena.at[p].size == nb && s'.arena.end == s.arena.end
    ensures Rest(s'.arena, s'.rings, s.bins, p + nb, s.arena.at[p].size - nb)
  {
    UnsortedHeader(s, NONE);
    assert s.rings[UNSORTED] == [s.bins];
    var s1;
    s1, s' := SplitRemainder(s, p, nb, s.arena.at[p].size - nb);
    SplitGiven(s, s1, s', p, nb);
  }

  /** Handing out the start of the top. */
  lemma SplitTopSound(s: State, nb: nat)
    requires Sound(s, NONE) && OnlyLoose(s.arena, NONE) && nb % 8 == 0 && MINSIZE <= nb
    requires s.top in s.arena.at && s.arena.at[s.top].size >= nb + MINSIZE
    ensures var s' := SplitStep(s, s.top, nb);
      && Sound(s', NONE) && OnlyLoose(s'.arena, NONE)
      && SameBinned(s.arena, s'.arena) && SameFast(s.arena, s'.arena)
      && GivenFree(s.mem, s.arena, s'.mem, s'.arena, s.top) && s'.arena.at[s.top].size == nb
        && s'.arena.end == s.arena.end
      && s'.arena == Split(s.arena, s.top, nb, Top)
      && s'.mem == SetHead(SetHead(s.mem, s.top, nb), s.top + nb, s.arena.at[s.top].size - nb)
    ensures SizeOf(Head(s.mem, s.top)) == s.arena.at[s.top].size
  {
    ZeroNotIn(s.arena);
    TopIsLast(s, NONE);
    HeadOf(s, NONE, s.top);
    SplitSound(s, s.top, nb);
    assert TagOk(s.mem, s.arena, NONE, s.top);
    SplitPrevUsed(s.arena, s.top, nb, Top);
    ZeroNotIn(SplitStep(s, s.top, nb).arena);
  }

  /** The flags stay right when the fastbins have not changed. */
  lemma FlagsKept(s: State, s': State, mf: nat)
    requires Sound(s, NONE) && Sound(s', NONE) && s'.fasts == s.fasts && FlagsOk(mf, s.arena) && HaveAny(mf)
    ensures FlagsOk(mf, s'.arena)
  {
    FastsEmpty(s, NONE);
    FastsEmpty(s', NONE);
  }

  /** The first chunk of a fastbin is handed out. */
  lemma TakeFastSound(s: State, j: nat, mf: nat)
    requires Sound(s, NONE) && OnlyLoose(s.arena, NONE) && FlagsOk(mf, s.arena) && j < NFASTBINS && s.heads[j] != 0
    ensures s.fasts[j] != [] && Has(s.arena, s.heads[j], Fast(j)) && s.arena.at[s.heads[j]].size == 8 * j + 16
    ensures var s' := PopFastStep(s, j);
      && Sound(s', NONE) && OnlyLoose(s'.arena, NONE) && FlagsOk(mf, s'.arena)
      && Given(s.mem, s.arena, s.mem, s'.arena, s.heads[j])
  {
    ZeroNotIn(s.arena);
    PopFastSound(s, j);
    FirstIsFast(s, j);
  }

  lemma RemainderGiven(s: State, s1: State, s2: State, s3: State, p: nat, nb: nat)
    requires Sound(s, NONE) && OnlyLoose(s.arena, NONE) && p in s.arena.at && s.arena.at[p].status.Binned?
    requires Sound(s1, NONE) && s1.arena == WithStatus(s.arena, p, Loose) && PayloadsKept(s.mem, s1.mem, s.arena, NONE)
    requires nb % 8 == 0 && MINSIZE <= nb && nb + MINSIZE <= s.arena.at[p].size
    requires s2.arena == Split(s1.arena, p, nb, Loose) && Tiling(s2.arena)
      && PayloadsKept(s1.mem, s2.mem, s1.arena, NONE)
    requires SameLive(s2.arena, s1.arena, p) && p + nb in s2.arena.at
    requires s3.arena == WithStatus(s2.arena, p + nb, Binned(UNSORTED)) && PayloadsKept(s2.mem, s3.mem, s2.arena, NONE)
    ensures GivenFree(s.mem, s.arena, s3.mem, s3.arena, p) && OnlyLoose(s3.arena, NONE)
    ensures s3.arena.at[p].size == nb && s3.arena.end == s.arena.end
  {
    ZeroNotIn(s.arena);
    StatusKept(s.mem, s1.mem, s.arena, p, Loose);
    SplitGiven(s1, s2, s3, p, nb);
    SparedThenGiven(s.mem, s.arena, s1.mem, s1.arena, s3.mem, s3.arena, p);
  }

  // ---------------------------------------------------------------- what the owner of a block may do

  /** Words from the fd field of p to its foot are the owner's while p is in use. */
  predicate Payload(a: Arena, p: nat, w: nat) {
    p in a.at && p + 8 <= w < p + a.at[p].size + 4
  }

  /** An owner that stays inside its block cannot damage the allocator, nor another block. */
  lemma OwnerWrites(s: State, p: nat, w: nat, v: nat)
    requires Sound(s, NONE) && Has(s.arena, p, InUse) && Payload(s.arena, p, w)
    ensures Sound(s.(mem := Set(s.mem, w, v)), NONE) && PayloadsKept(s.mem, Set(s.mem, w, v), s.arena, p)
  {
    var m', a := Set(s.mem, w, v), s.arena;
    assert ChunkOk(a, p);
    SetInside(s.mem, a, p, w, v);
    forall q | q in a.at
      ensures TagKept(s.mem, m', a, q)
    {
      assert ChunkOk(a, q) && Apart(a, p, q) && Apart(a, q, p);
      if Next(a, q) in a.at {
        assert Apart(a, p, Next(a, q)) && Apart(a, Next(a, q), p);
      }
    }
    KeptTags(s.mem, m', a, NONE);
    KeptStructure(s, NONE, m', a);
  }
}
