/**
 * The invariant of the allocator (shared/malloc.c) and what each step of its routines does to it.
 * A routine takes a chunk out of its list, tags it and puts it elsewhere; in between a chunk may be
 * loose, and one chunk may be exempt from the tag rules while it is being assembled.
 */
module AllocatorState {
  import opened Arithmetic
  import opened BinIndex
  import opened BoundaryTags
  import opened BinLists

  /** `heads` are the fastbins; the other fields are those of malloc_state and what they stand for. */
  datatype State = State(mem: Memory, bins: nat, arena: Arena, rings: seq<seq<nat>>, heads: seq<nat>,
                         fasts: seq<seq<nat>>, binmap: seq<nat>, top: nat)

  // ---------------------------------------------------------------- the invariant

  ghost predicate SizedFor(a: Arena, p: nat, i: nat) {
    p in a.at && Index(a.at[p].size) == i
  }

  ghost predicate NotSmaller(a: Arena, p: nat, q: nat) {
    p in a.at && q in a.at && a.at[p].size >= a.at[q].size
  }

  /** Chunks in a regular bin have sizes of that bin; large bins run from larger to smaller. */
  ghost predicate BinSized(a: Arena, i: nat, r: seq<nat>) {
    && (forall k {:trigger SizedFor(a, r[k], i)} :: 1 <= k < |r| ==> SizedFor(a, r[k], i))
    && (i >= 32 ==> forall j, k {:trigger NotSmaller(a, r[j], r[k])} :: 1 <= j < k < |r| ==> NotSmaller(a, r[j], r[k]))
  }

  ghost predicate Sizes(a: Arena, rings: seq<seq<nat>>) {
    |rings| == NBINS && forall i {:trigger BinSized(a, i, rings[i])} :: 2 <= i < NBINS ==> BinSized(a, i, rings[i])
  }

  /** The bin map never hides a bin that has chunks; its fourth word stays 0. */
  ghost predicate MapOk(binmap: seq<nat>, rings: seq<seq<nat>>) {
    && |binmap| == 4 && |rings| == NBINS && binmap[3] == 0
    && (forall b :: 0 <= b < 4 ==> binmap[b] < TWO_32)
    && forall i {:trigger Marked(binmap, i)} :: 2 <= i < NBINS && |rings[i]| > 1 ==> Marked(binmap, i)
  }

  ghost predicate Marked(binmap: seq<nat>, i: nat)
    requires |binmap| == 4 && i < 4 * 32
  {
    Bit(binmap[i / 32], i % 32)
  }

  /** Nothing has been obtained from the system. */
  ghost predicate NoChunks(a: Arena) {
    a.base == a.end && forall p :: p !in a.at
  }

  /** Before the first sbrk the header of the unsorted list stands for an empty top. */
  ghost predicate TopOk(m: Memory, bins: nat, a: Arena, top: nat) {
    if top == bins then NoChunks(a) && Word(m, bins + 4) == 0
    else top in a.at && a.at[top].status.Top? && Next(a, top) == a.end && OnlyTop(a, top)
  }

  ghost predicate OnlyTop(a: Arena, top: nat) {
    forall p {:trigger a.at[p]} :: p in a.at && a.at[p].status.Top? ==> p == top
  }

  /** The invariant, but for the tags of the exempt chunk x. */
  ghost predicate Sound(s: State, x: nat) {
    && Tiling(s.arena) && Below(s.bins, s.arena) && Tags(s.mem, s.arena, x)
    && Lists(s.mem, s.bins, s.arena, s.rings) && FastLists(s.mem, s.arena, s.heads, s.fasts)
    && Sizes(s.arena, s.rings) && MapOk(s.binmap, s.rings) && TopOk(s.mem, s.bins, s.arena, s.top)
  }

  ghost predicate OnlyLoose(a: Arena, x: nat) {
    forall p {:trigger a.at[p]} :: p in a.at && a.at[p].status.Loose? ==> p == x
  }

  ghost predicate Has(a: Arena, p: nat, s: Status) {
    p in a.at && a.at[p].status == s
  }

  // ---------------------------------------------------------------- consequences

  lemma LastIsTop(s: State, x: nat, p: nat)
    requires Sound(s, x) && p in s.arena.at && p != s.top
    ensures s.top in s.arena.at && p < s.top && Next(s.arena, p) in s.arena.at && !s.arena.at[p].status.Top?
  {
    var a := s.arena;
    assert ChunkOk(a, p) && Apart(a, p, s.top) && Apart(a, s.top, p);
    assert ChunkOk(a, s.top);
  }

  lemma TopIsLast(s: State, x: nat)
    requires Sound(s, x) && s.top in s.arena.at
    ensures Has(s.arena, s.top, Top) && Next(s.arena, s.top) == s.arena.end && Next(s.arena, s.top) !in s.arena.at
  {
    var a := s.arena;
    assert ChunkOk(a, s.top);
    assert Next(a, s.top) in a.at ==> ChunkOk(a, Next(a, s.top));
  }

  lemma HeadOf(s: State, x: nat, p: nat)
    requires Sound(s, x) && p in s.arena.at && p != x
    ensures SizeOf(Head(s.mem, p)) == s.arena.at[p].size
    ensures !AfterExempt(s.arena, x, p) ==> (Head(s.mem, p) % 2 == 1 <==> PrevUsed(s.arena, p))
    ensures Head(s.mem, p) % 2 == 1 ==> Head(s.mem, p) == s.arena.at[p].size + 1
    ensures Head(s.mem, p) % 2 == 0 ==> Head(s.mem, p) == s.arena.at[p].size
  {
    assert TagOk(s.mem, s.arena, x, p) && Aligned(s.arena, p);
    HeadBits(Head(s.mem, p), s.arena.at[p].size);
  }

  lemma HeadBits(h: nat, size: nat)
    requires size % 8 == 0 && (h == size || h == size + 1)
    ensures SizeOf(h) == size && (h % 2 == 1 <==> h == size + 1)
  {
    var k := size / 8;
    assert size == 8 * k;
    assert h / 2 == 4 * k;
  }

  /** A free chunk lies between chunks in use, and its size is at both ends. */
  lemma FreeChunk(s: State, p: nat)
    requires Sound(s, NONE) && p in s.arena.at && Free(s.arena.at[p].status)
    ensures Head(s.mem, p) == s.arena.at[p].size + 1 && PrevUsed(s.arena, p)
    ensures var n := Next(s.arena, p);
      && n in s.arena.at && Used(s.arena.at[n].status)
      && Head(s.mem, n) == s.arena.at[n].size
      && Foot(s.mem, n) == s.arena.at[p].size
  {
    LastIsTop(s, NONE, p);
    assert ChunkOk(s.arena, p) && ChunkOk(s.arena, Next(s.arena, p));
    assert TagOk(s.mem, s.arena, NONE, p) && TagOk(s.mem, s.arena, NONE, Next(s.arena, p));
  }

  // ---------------------------------------------------------------- steps that keep the arena's shape

  lemma KeptSizes(a: Arena, a': Arena, rings: seq<seq<nat>>, m: Memory, bins: nat)
    requires Lists(m, bins, a, rings) && Sizes(a, rings) && SameBinned(a, a')
    ensures Sizes(a', rings)
  {
    forall i | 2 <= i < NBINS
      ensures BinSized(a', i, rings[i])
    {
      var r := rings[i];
      assert BinOk(m, bins, a, i, r) && BinSized(a, i, r);
      forall k | 1 <= k < |r|
        ensures r[k] in a.at && r[k] in a'.at && a'.at[r[k]].size == a.at[r[k]].size
      {
        assert Member(a, r[k], i);
      }
      forall k | 1 <= k < |r|
        ensures SizedFor(a', r[k], i)
      {
        assert SizedFor(a, r[k], i);
      }
      if i >= 32 {
        forall j, k | 1 <= j < k < |r|
          ensures NotSmaller(a', r[j], r[k])
        {
          assert NotSmaller(a, r[j], r[k]);
        }
      }
    }
  }

  /** Unlinking p from position k of ring i. */
  function UnlinkStep(s: State, p: nat, i: nat, k: nat): State
    requires i < |s.rings| && k < |s.rings[i]| && p in s.arena.at
  {
    s.(mem := Unlinked(s.mem, Bk(s.mem, p), Fd(s.mem, p)), arena := WithStatus(s.arena, p, Loose),
       rings := s.rings[i := Without(s.rings[i], k)])
  }

  lemma UnlinkSound(s: State, x: nat, p: nat, i: nat, k: nat)
    requires Sound(s, x) && 1 <= i < NBINS && 1 <= k < |s.rings[i]| && s.rings[i][k] == p
    ensures p in s.arena.at && s.arena.at[p].status == Binned(i)
    ensures Bk(s.mem, p) == s.rings[i][k - 1] && Fd(s.mem, p) == After(s.rings[i], k)
    ensures Sound(UnlinkStep(s, p, i, k), x)
    ensures PayloadsKept(s.mem, UnlinkStep(s, p, i, k).mem, s.arena, NONE)
      && TagsKept(s.mem, UnlinkStep(s, p, i, k).mem, s.arena)
  {
    var r, a := s.rings[i], s.arena;
    UnlinkLists(s.mem, s.bins, a, s.rings, p, i, k);
    var bck, fwd := r[k - 1], After(r, k);
    RingNodes(s.mem, s.bins, a, s.rings, i, k - 1);
    RingNodes(s.mem, s.bins, a, s.rings, i, Succ(|r|, k));
    UnlinkKeeps(s.mem, s.bins, a, bck, fwd);
    var s' := UnlinkStep(s, p, i, k);
    HeadersAreRingNodes(s, x, i, k - 1);
    HeadersAreRingNodes(s, x, i, Succ(|r|, k));
    UnlinkFast(s.mem, s.bins, a, s'.arena, bck, fwd, s.heads, s.fasts);
    StatusTiling(a, p, Loose);
    KeptTags(s.mem, s'.mem, a, x);
    StatusTags(s'.mem, a, x, p, Loose);
    UnlinkSizes(a, s.rings, s.mem, s.bins, p, i, k);
  }

  lemma HeadersAreRingNodes(s: State, x: nat, i: nat, k: nat)
    requires Sound(s, x) && 1 <= i < NBINS && k < |s.rings[i]|
    ensures RingNode(s.bins, s.arena, s.rings[i][k])
  {
    RingNodes(s.mem, s.bins, s.arena, s.rings, i, k);
    if s.rings[i][k] in s.arena.at {
      assert ChunkOk(s.arena, s.rings[i][k]);
    }
  }

  lemma UnlinkSizes(a: Arena, rings: seq<seq<nat>>, m: Memory, bins: nat, p: nat, i: nat, k: nat)
    requires Lists(m, bins, a, rings) && Sizes(a, rings) && 1 <= i < NBINS && 1 <= k < |rings[i]| && p in a.at
    ensures Sizes(WithStatus(a, p, Loose), rings[i := Without(rings[i], k)])
  {
    var a', rings' := WithStatus(a, p, Loose), rings[i := Without(rings[i], k)];
    forall b | 2 <= b < NBINS
      ensures BinSized(a', b, rings'[b])
    {
      assert BinSized(a, b, rings[b]);
      forall j | 1 <= j < |rings'[b]|
        ensures SizedFor(a', rings'[b][j], b)
      {
        assert SizedFor(a, rings[b][if b == i && j >= k then j + 1 else j], b);
      }
      if b >= 32 {
        forall j, l | 1 <= j < l < |rings'[b]|
          ensures NotSmaller(a', rings'[b][j], rings'[b][l])
        {
          assert NotSmaller(a, rings[b][if b == i && j >= k then j + 1 else j],
            rings[b][if b == i && l >= k then l + 1 else l]);
        }
      }
    }
  }

  /** Inserting the loose chunk p after position k of ring i. */
  function InsertStep(s: State, p: nat, i: nat, k: nat): State
    requires i < |s.rings| && k < |s.rings[i]| && p in s.arena.at
  {
    s.(mem := Inserted(s.mem, p, s.rings[i][k], After(s.rings[i], k)), arena := WithStatus(s.arena, p, Binned(i)),
       rings := s.rings[i := With(s.rings[i], k, p)])
  }

  /** Chunks up to position k are not smaller than p, those after it not larger. */
  ghost predicate InOrder(a: Arena, r: seq<nat>, p: nat, k: nat) {
    && (forall j {:trigger NotSmaller(a, r[j], p)} :: 1 <= j <= k && j < |r| ==> NotSmaller(a, r[j], p))
    && (forall j {:trigger NotSmaller(a, p, r[j])} :: k < j < |r| ==> NotSmaller(a, p, r[j]))
  }

  /** Position k is where p belongs in regular bin i, and the bin is marked. */
  ghost predicate Place(s: State, p: nat, i: nat, k: nat) {
    && 2 <= i < |s.rings| && |s.binmap| == 4 && i < 128
    && Marked(s.binmap, i) && SizedFor(s.arena, p, i) && (i >= 32 ==> InOrder(s.arena, s.rings[i], p, k))
  }

  lemma InsertSound(s: State, x: nat, p: nat, i: nat, k: nat)
    requires Sound(s, x) && Has(s.arena, p, Loose) && 1 <= i < NBINS && k < |s.rings[i]|
    requires i != UNSORTED ==> Place(s, p, i, k)
    ensures Sound(InsertStep(s, p, i, k), x)
    ensures PayloadsKept(s.mem, InsertStep(s, p, i, k).mem, s.arena, NONE)
      && TagsKept(s.mem, InsertStep(s, p, i, k).mem, s.arena)
  {
    var r, a := s.rings[i], s.arena;
    InsertLists(s.mem, s.bins, a, s.rings, p, i, k);
    var bck, fwd := r[k], After(r, k);
    HeadersAreRingNodes(s, x, i, k);
    HeadersAreRingNodes(s, x, i, Succ(|r|, k));
    InsertKeeps(s.mem, s.bins, a, p, bck, fwd);
    var s' := InsertStep(s, p, i, k);
    InsertFast(s.mem, s.bins, a, s'.arena, p, bck, fwd, s.heads, s.fasts);
    StatusTiling(a, p, Binned(i));
    KeptTags(s.mem, s'.mem, a, x);
    StatusTags(s'.mem, a, x, p, Binned(i));
    InsertSizes(s, p, i, k);
  }

  lemma InsertSizes(s: State, p: nat, i: nat, k: nat)
    requires Lists(s.mem, s.bins, s.arena, s.rings) && Sizes(s.arena, s.rings) && p in s.arena.at && 1 <= i < NBINS
      && k < |s.rings[i]|
    requires i != UNSORTED ==> Place(s, p, i, k)
    ensures Sizes(WithStatus(s.arena, p, Binned(i)), s.rings[i := With(s.rings[i], k, p)])
  {
    var a, rings := s.arena, s.rings;
    var a', rings' := WithStatus(a, p, Binned(i)), rings[i := With(rings[i], k, p)];
    forall b | 2 <= b < NBINS
      ensures BinSized(a', b, rings'[b])
    {
      assert BinSized(a, b, rings[b]);
      if b == i {
        InsertInOrder(a, rings[i], p, i, k);
      } else {
        forall j | 1 <= j < |rings[b]|
          ensures SizedFor(a', rings[b][j], b)
        {
          assert SizedFor(a, rings[b][j], b);
        }
        if b >= 32 {
          forall j, l | 1 <= j < l < |rings[b]|
            ensures NotSmaller(a', rings[b][j], rings[b][l])
          {
            assert NotSmaller(a, rings[b][j], rings[b][l]);
          }
        }
      }
    }
  }

  lemma WithAt(r: seq<nat>, k: nat, p: nat, j: nat)
    requires k < |r| && j < |r| + 1
    ensures With(r, k, p)[j] == if j <= k then r[j] else if j == k + 1 then p else r[j - 1]
  {
  }

  lemma InsertInOrder(a: Arena, r: seq<nat>, p: nat, i: nat, k: nat)
    requires p in a.at && k < |r| && BinSized(a, i, r) && SizedFor(a, p, i) && (i >= 32 ==> InOrder(a, r, p, k))
    ensures BinSized(WithStatus(a, p, Binned(i)), i, With(r, k, p))
  {
    var a', r' := WithStatus(a, p, Binned(i)), With(r, k, p);
    forall j | 1 <= j < |r'|
      ensures SizedFor(a', r'[j], i)
    {
      WithAt(r, k, p, j);
      assert SizedFor(a, if j == k + 1 then p else r[if j <= k then j else j - 1], i);
    }
    if i >= 32 {
      forall j, l | 1 <= j < l < |r'|
        ensures NotSmaller(a', r'[j], r'[l])
      {
        WithAt(r, k, p, j);
        WithAt(r, k, p, l);
        if j == k + 1 {
          assert NotSmaller(a, p, r[l - 1]);
        } else if l == k + 1 {
          assert NotSmaller(a, r[j], p);
        } else {
          assert NotSmaller(a, r[if j <= k then j else j - 1], r[if l <= k then l else l - 1]);
        }
      }
    }
  }

  // ---------------------------------------------------------------- steps that change tags or the arena

  /** Everything but the tags survives writes that keep the links, and changes that keep the listed chunks. */
  lemma KeptStructure(s: State, x: nat, m': Memory, a': Arena)
    requires Sound(s, x) && LinksKept(s.mem, m', s.arena) && SameBinned(s.arena, a') && SameFast(s.arena, a')
    ensures Lists(m', s.bins, a', s.rings) && FastLists(m', a', s.heads, s.fasts) && Sizes(a', s.rings)
  {
    KeptLists(s.mem, m', s.bins, s.arena, a', s.rings);
    FastKept(s.mem, m', s.arena, a', s.heads, s.fasts);
    KeptSizes(s.arena, a', s.rings, s.mem, s.bins);
  }

  /** A chunk in use is taken back: it becomes loose and exempt. */
  lemma TakeBackSound(s: State, p: nat)
    requires Sound(s, NONE) && Has(s.arena, p, InUse)
    ensures Sound(s.(arena := WithStatus(s.arena, p, Loose)), p)
    ensures SameLive(s.arena, WithStatus(s.arena, p, Loose), p)
  {
    var a' := WithStatus(s.arena, p, Loose);
    StatusTiling(s.arena, p, Loose);
    Exempt(s.mem, s.arena, p, Loose);
    KeptStructure(s, NONE, s.mem, a');
  }

  /** The loose chunk p absorbs the loose chunk after it. */
  lemma MergeSound(s: State, p: nat, x: nat)
    requires Sound(s, x) && Has(s.arena, p, Loose) && Has(s.arena, Next(s.arena, p), Loose)
      && (x == p || x == Next(s.arena, p))
    ensures Sound(s.(arena := Merged(s.arena, p)), p)
    ensures SameLive(s.arena, Merged(s.arena, p), NONE)
  {
    var a' := Merged(s.arena, p);
    MergedTiling(s.arena, p);
    MergedTags(s.mem, s.arena, p, x);
    MergedSame(s.arena, p);
    KeptStructure(s, x, s.mem, a');
    MergedTop(s, x, p);
  }

  /** Chunk q is as it was, but perhaps for its predecessor. */
  ghost predicate SameAt(a: Arena, a': Arena, q: nat) {
    (q in a'.at <==> q in a.at) && (q in a.at ==> a'.at[q].status == a.at[q].status && a'.at[q].size == a.at[q].size)
  }

  ghost predicate SameBut(a: Arena, a': Arena, x: nat, y: nat) {
    forall q {:trigger SameAt(a, a', q)} :: q != x && q != y ==> SameAt(a, a', q)
  }

  ghost predicate NotListed(a: Arena, x: nat) {
    x in a.at ==> !Listed(a.at[x].status)
  }

  lemma SameOthers(a: Arena, a': Arena, x: nat, y: nat)
    requires SameBut(a, a', x, y) && NotListed(a, x) && NotListed(a, y) && NotListed(a', x) && NotListed(a', y)
    ensures SameBinned(a, a') && SameFast(a, a')
  {
    forall q | q in a.at && Listed(a.at[q].status)
      ensures q in a'.at && a'.at[q].status == a.at[q].status && a'.at[q].size == a.at[q].size
    {
      assert SameAt(a, a', q);
    }
    forall q | q in a'.at && Listed(a'.at[q].status)
      ensures q in a.at && a.at[q].status == a'.at[q].status
    {
      assert SameAt(a, a', q);
    }
  }

  ghost predicate NotLive(a: Arena, x: nat) {
    x in a.at ==> !a.at[x].status.InUse?
  }

  /** x and y are not in use before; if x is after, it is new. */
  lemma SameLiveOthers(a: Arena, a': Arena, x: nat, y: nat)
    requires SameBut(a, a', x, y) && NotLive(a, x) && NotLive(a, y) && NotLive(a', y)
    ensures SameLive(a', a, x)
    ensures NotLive(a', x) ==> SameLive(a, a', NONE) || NONE in a.at || NONE in a'.at
  {
    forall q | q in a.at && a.at[q].status.InUse?
      ensures q != x && q in a'.at && a'.at[q].status == a.at[q].status && a'.at[q].size == a.at[q].size
    {
      assert SameAt(a, a', q);
    }
    forall q | q in a'.at && a'.at[q].status.InUse? && q != x
      ensures q in a.at && a.at[q].status == a'.at[q].status && a'.at[q].size == a.at[q].size
    {
      assert SameAt(a, a', q);
    }
  }

  /** Merging changes the two chunks only. */
  lemma MergedSame(a: Arena, p: nat)
    requires Tiling(a) && p in a.at && Next(a, p) in a.at
    requires var n := a.at[Next(a, p)].status;
      a.at[p].status.Loose? && (n.Loose? || n.Top?)
    ensures SameBut(a, Merged(a, p), p, Next(a, p))
    ensures SameBinned(a, Merged(a, p)) && SameFast(a, Merged(a, p)) && SameLive(a, Merged(a, p), NONE)
  {
    var a', n := Merged(a, p), Next(a, p);
    assert ChunkOk(a, p) && ChunkOk(a, n);
    assert p in a'.at && a'.at[p].status.Loose? && n !in a'.at;
    forall q | q != p && q != n
      ensures SameAt(a, a', q)
    {
    }
    SameOthers(a, a', p, n);
    SameLiveOthers(a, a', p, n);
    ZeroNotIn(a);
  }

  lemma ZeroNotIn(a: Arena)
    requires Tiling(a)
    ensures NONE !in a.at
  {
    assert NONE in a.at ==> ChunkOk(a, NONE);
  }

  lemma MergedTop(s: State, x: nat, p: nat)
    requires Sound(s, x) && Has(s.arena, p, Loose) && Has(s.arena, Next(s.arena, p), Loose)
    ensures TopOk(s.mem, s.bins, Merged(s.arena, p), s.top)
  {
    LastIsTop(s, x, p);
    assert s.top in Merged(s.arena, p).at;
  }

  /** Its head is set to the whole size, and it becomes the top. */
  function MergeTopStep(s: State, p: nat): State
    requires p in s.arena.at && Next(s.arena, p) in s.arena.at
  {
    var b := Merged(s.arena, p);
    s.(mem := SetHead(s.mem, p, b.at[p].size), arena := WithStatus(b, p, Top), top := p)
  }

  /** The loose, exempt chunk before the top is merged into it. */
  lemma MergeTopSound(s: State, p: nat)
    requires Sound(s, p) && Has(s.arena, p, Loose) && PrevUsed(s.arena, p) && Next(s.arena, p) == s.top
    ensures var s' := MergeTopStep(s, p);
      Sound(s', NONE) && PayloadsKept(s.mem, s'.mem, s.arena, NONE) && SameLive(s.arena, s'.arena, NONE)
  {
    LastIsTop(s, p, p);
    TopIsLast(s, p);
    var a, b := s.arena, Merged(s.arena, p);
    var m', a' := SetHead(s.mem, p, b.at[p].size), WithStatus(b, p, Top);
    assert ChunkOk(a, p);
    HeadKept(s.mem, a, p, b.at[p].size);
    MergeTopTags(s.mem, a, p);
    MergeTopSame(a, p);
    KeptStructure(s, p, m', a');
    assert MergeTopStep(s, p) == s.(mem := m', arena := a', top := p);
  }

  lemma MergeTopSame(a: Arena, p: nat)
    requires Tiling(a) && Has(a, p, Loose) && Has(a, Next(a, p), Top)
    ensures var a' := WithStatus(Merged(a, p), p, Top);
      && SameBinned(a, a') && SameFast(a, a') && SameLive(a, a', NONE)
      && (OnlyTop(a, Next(a, p)) ==> OnlyTop(a', p)) && Has(a', p, Top) && Next(a', p) == Next(a, Next(a, p))
  {
    var a', t := WithStatus(Merged(a, p), p, Top), Next(a, p);
    MergedSame(a, p);
    forall q | q != p && q != t
      ensures SameAt(a, a', q)
    {
      assert SameAt(a, Merged(a, p), q);
    }
    SameOthers(a, a', p, t);
    SameLiveOthers(a, a', p, t);
    ZeroNotIn(a);
  }

  /** Writing the head of a loose chunk or of the top changes no link and no payload. */
  lemma HeadKept(m: Memory, a: Arena, p: nat, v: nat)
    requires Tiling(a) && p in a.at && !Used(a.at[p].status) && !a.at[p].status.Binned?
    ensures LinksKept(m, SetHead(m, p, v), a) && PayloadsKept(m, SetHead(m, p, v), a, NONE)
  {
    assert ChunkOk(a, p);
    SetInside(m, a, p, p + 4, v + 1);
    LooseKept(m, SetHead(m, p, v), a, p);
  }

  lemma MergeTopTags(m: Memory, a: Arena, p: nat)
    requires Tiling(a) && Tags(m, a, p) && Has(a, p, Loose) && PrevUsed(a, p) && Has(a, Next(a, p), Top)
    requires Next(a, Next(a, p)) !in a.at
    ensures var b := Merged(a, p);
      Tiling(WithStatus(b, p, Top)) && Tags(SetHead(m, p, b.at[p].size), WithStatus(b, p, Top), NONE)
  {
    var b := Merged(a, p);
    var m', a' := SetHead(m, p, b.at[p].size), WithStatus(b, p, Top);
    assert ChunkOk(a, p);
    MergedTiling(a, p);
    MergedTags(m, a, p, p);
    assert ChunkOk(b, p);
    SetExempt(m, b, p, p + 4, b.at[p].size + 1);
    Exempt(m', b, p, Top);
    StatusTiling(b, p, Top);
    Settle(m', a', p);
  }

  /** Keeping every payload but that of a chunk that is not in use keeps them all. */
  lemma LooseKept(m: Memory, m': Memory, a: Arena, p: nat)
    requires p in a.at && !a.at[p].status.InUse? && PayloadsKept(m, m', a, p)
    ensures PayloadsKept(m, m', a, NONE)
  {
    forall q | q in a.at && q != NONE && a.at[q].status.InUse?
      ensures PayloadKept(m, m', a, q)
    {
      assert q != p;
    }
  }

  /** Writing a word of the exempt chunk, its foot or the head after it. */
  lemma WriteSound(s: State, x: nat, w: nat, v: nat)
    requires Sound(s, x) && Has(s.arena, x, Loose) && Inside(s.arena, x, w)
    requires var n := Next(s.arena, x);
      w == n + 4 && n in s.arena.at ==> v == s.arena.at[n].size || v == s.arena.at[n].size + 1
    ensures Sound(s.(mem := Set(s.mem, w, v)), x) && PayloadsKept(s.mem, Set(s.mem, w, v), s.arena, NONE)
  {
    var m' := Set(s.mem, w, v);
    SetInside(s.mem, s.arena, x, w, v);
    LooseKept(s.mem, m', s.arena, x);
    SetExempt(s.mem, s.arena, x, w, v);
    KeptStructure(s, x, m', s.arena);
  }

  function HandOutStep(s: State, p: nat): State
    requires p in s.arena.at && Next(s.arena, p) in s.arena.at
  {
    var n := Next(s.arena, p);
    s.(mem := SetHead(s.mem, n, s.arena.at[n].size), arena := WithStatus(s.arena, p, InUse))
  }

  /** set_inuse_bit_at_offset: the loose chunk p is handed out whole. */
  lemma HandOutSound(s: State, p: nat)
    requires Sound(s, NONE) && Has(s.arena, p, Loose)
    ensures var n := Next(s.arena, p);
      n in s.arena.at && Head(s.mem, n) == s.arena.at[n].size
    ensures var s' := HandOutStep(s, p);
      Sound(s', NONE) && PayloadsKept(s.mem, s'.mem, s.arena, NONE) && SameLive(s'.arena, s.arena, p)
  {
    FreeChunk(s, p);
    var a, n, s' := s.arena, Next(s.arena, p), HandOutStep(s, p);
    assert ChunkOk(a, p);
    HandOutTags(s.mem, a, p);
    HandOutKeeps(s.mem, a, p);
    StatusTiling(a, p, InUse);
    KeptStructure(s, NONE, s'.mem, s'.arena);
  }

  lemma HandOutKeeps(m: Memory, a: Arena, p: nat)
    requires Tiling(a) && Has(a, p, Loose) && Next(a, p) in a.at
    ensures var m', a' := SetHead(m, Next(a, p), a.at[Next(a, p)].size), WithStatus(a, p, InUse);
      LinksKept(m, m', a) && PayloadsKept(m, m', a, NONE) && SameBinned(a, a') && SameFast(a, a') && SameLive(a', a, p)
  {
    var n := Next(a, p);
    assert ChunkOk(a, p);
    SetInside(m, a, p, n + 4, a.at[n].size + 1);
    LooseKept(m, SetHead(m, n, a.at[n].size), a, p);
  }

  lemma HandOutTags(m: Memory, a: Arena, p: nat)
    requires Tiling(a) && Tags(m, a, NONE) && Has(a, p, Loose) && PrevUsed(a, p) && Next(a, p) in a.at
    requires Head(m, p) == a.at[p].size + 1
    ensures Tags(SetHead(m, Next(a, p), a.at[Next(a, p)].size), WithStatus(a, p, InUse), NONE)
  {
    var n := Next(a, p);
    var v := a.at[n].size + 1;
    var m', a' := SetHead(m, n, a.at[n].size), WithStatus(a, p, InUse);
    assert ChunkOk(a, p);
    Exempt(m, a, p, Loose);
    assert WithStatus(a, p, Loose) == a;
    SetExempt(m, a, p, n + 4, v);
    Exempt(m', a, p, InUse);
    StatusTiling(a, p, InUse);
    Settle(m', a', p);
  }

  lemma LinksKeptTwice(m: Memory, m1: Memory, m2: Memory, a: Arena, p: nat)
    requires LinksKept(m, m1, a) && PayloadsKept(m, m1, a, p) && LinksKept(m1, m2, a) && PayloadsKept(m1, m2, a, p)
    ensures LinksKept(m, m2, a) && PayloadsKept(m, m2, a, p)
  {
    forall q | q in a.at && Listed(a.at[q].status)
      ensures LinkKept(m, m2, q)
    {
      assert LinkKept(m, m1, q) && LinkKept(m1, m2, q);
    }
    forall q | q in a.at && q != p && a.at[q].status.InUse?
      ensures PayloadKept(m, m2, a, q)
    {
      assert PayloadKept(m, m1, a, q) && PayloadKept(m1, m2, a, q);
    }
  }

  /** Heads, and for a remainder that is not the top the foot, of a chunk split at nb. */
  function SplitWrites(m: Memory, a: Arena, p: nat, nb: nat, s: Status): Memory
    requires p in a.at && nb <= a.at[p].size
  {
    var rs := a.at[p].size - nb;
    var m' := SetHead(SetHead(m, p, nb), p + nb, rs);
    if s.Top? then m' else SetFoot(m', p + nb, rs)
  }

  function SplitStep(s: State, p: nat, nb: nat): State
    requires p in s.arena.at && nb <= s.arena.at[p].size
  {
    var st := s.arena.at[p].status;
    s.(mem := SplitWrites(s.mem, s.arena, p, nb, st), arena := Split(s.arena, p, nb, st),
      top := if p == s.top then p + nb else s.top)
  }

  /** A loose chunk, or the top, is split: its first nb bytes are handed out. */
  lemma SplitSound(s: State, p: nat, nb: nat)
    requires Sound(s, NONE) && p in s.arena.at && nb % 8 == 0 && MINSIZE <= nb && nb + MINSIZE <= s.arena.at[p].size
    requires s.arena.at[p].status.Loose? || p == s.top
    ensures var s' := SplitStep(s, p, nb);
      Sound(s', NONE) && PayloadsKept(s.mem, s'.mem, s.arena, NONE) && SameLive(s'.arena, s.arena, p)
    ensures var a' := SplitStep(s, p, nb).arena;
      SameBinned(s.arena, a') && SameFast(s.arena, a')
  {
    var a, st := s.arena, s.arena.at[p].status;
    var a', m', rs := Split(a, p, nb, st), SplitWrites(s.mem, a, p, nb, st), a.at[p].size - nb;
    assert ChunkOk(a, p);
    if p == s.top {
      TopIsLast(s, NONE);
    } else {
      LastIsTop(s, NONE, p);
    }
    SplitTiling(a, p, nb, st);
    SplitTags(s.mem, a, p, nb, st, m');
    SplitWritesKeep(s.mem, a, p, nb, st);
    LooseKept(s.mem, m', a, p);
    SplitSame(a, p, nb, st);
    KeptStructure(s, NONE, m', a');
  }

  lemma SplitWritesKeep(m: Memory, a: Arena, p: nat, nb: nat, st: Status)
    requires Tiling(a) && p in a.at && MINSIZE <= nb && nb + MINSIZE <= a.at[p].size && !Listed(a.at[p].status)
    ensures LinksKept(m, SplitWrites(m, a, p, nb, st), a) && PayloadsKept(m, SplitWrites(m, a, p, nb, st), a, p)
  {
    var rs := a.at[p].size - nb;
    var m1 := SetHead(m, p, nb);
    var m2 := SetHead(m1, p + nb, rs);
    SetInside(m, a, p, p + 4, nb + 1);
    SetInsideAfter(m, m1, a, p, p + nb + 4, rs + 1);
    if !st.Top? {
      SetInsideAfter(m, m2, a, p, p + nb + rs, rs);
    }
  }

  lemma SetInsideAfter(m: Memory, m1: Memory, a: Arena, p: nat, w: nat, v: nat)
    requires Tiling(a) && Inside(a, p, w) && !Listed(a.at[p].status)
    requires LinksKept(m, m1, a) && PayloadsKept(m, m1, a, p)
    ensures LinksKept(m, Set(m1, w, v), a) && PayloadsKept(m, Set(m1, w, v), a, p)
  {
    SetInside(m1, a, p, w, v);
    LinksKeptTwice(m, m1, Set(m1, w, v), a, p);
  }

  lemma SplitSame(a: Arena, p: nat, nb: nat, st: Status)
    requires Tiling(a) && p in a.at && p + nb !in a.at && nb <= a.at[p].size && nb > 0
    requires (st.Loose? || st.Top?) && (a.at[p].status.Loose? || a.at[p].status.Top?)
    ensures var a' := Split(a, p, nb, st);
      SameBinned(a, a') && SameFast(a, a') && SameLive(a', a, p)
  {
    var a', r := Split(a, p, nb, st), p + nb;
    assert ChunkOk(a, p);
    forall q | q != p && q != r
      ensures SameAt(a, a', q)
    {
    }
    assert a'.at[r].status == st && a'.at[p].status == InUse;
    SameOthers(a, a', p, r);
    SameLiveOthers(a, a', p, r);
  }

  // ---------------------------------------------------------------- fastbins

  function PopFastStep(s: State, j: nat): State
    requires j < |s.heads| && j < |s.fasts| && s.fasts[j] != [] && s.heads[j] in s.arena.at
  {
    var p := s.heads[j];
    s.(arena := WithStatus(s.arena, p, InUse), heads := s.heads[j := Fd(s.mem, p)],
      fasts := s.fasts[j := s.fasts[j][1..]])
  }

  lemma PopFastSound(s: State, j: nat)
    requires Sound(s, NONE) && j < NFASTBINS && s.heads[j] != 0
    ensures s.fasts[j] != [] && FastMember(s.arena, s.heads[j], j)
    ensures var s' := PopFastStep(s, j);
      Sound(s', NONE) && SameLive(s'.arena, s.arena, s.heads[j])
  {
    assert FastOk(s.mem, s.arena, j, s.heads[j], s.fasts[j]);
    var p := s.heads[j];
    PopFast(s.mem, s.arena, s.heads, s.fasts, j, InUse);
    var a' := WithStatus(s.arena, p, InUse);
    StatusTiling(s.arena, p, InUse);
    StatusTags(s.mem, s.arena, NONE, p, InUse);
    KeptLists(s.mem, s.mem, s.bins, s.arena, a', s.rings);
    KeptSizes(s.arena, a', s.rings, s.mem, s.bins);
  }

  function PushFastStep(s: State, p: nat, j: nat): State
    requires j < |s.heads| && j < |s.fasts| && p in s.arena.at
  {
    s.(mem := SetFd(s.mem, p, s.heads[j]), arena := WithStatus(s.arena, p, Fast(j)),
       heads := s.heads[j := p], fasts := s.fasts[j := [p] + s.fasts[j]])
  }

  lemma PushFastSound(s: State, p: nat, j: nat)
    requires Sound(s, NONE) && Has(s.arena, p, InUse) && j <= 7 && s.arena.at[p].size == 8 * j + 16
    ensures var s' := PushFastStep(s, p, j);
      Sound(s', NONE) && PayloadsKept(s.mem, s'.mem, s.arena, p) && SameLive(s.arena, s'.arena, p)
  {
    var a, a', m' := s.arena, WithStatus(s.arena, p, Fast(j)), SetFd(s.mem, p, s.heads[j]);
    PushFast(s.mem, a, s.heads, s.fasts, p, j);
    StatusTiling(a, p, Fast(j));
    StatusTags(s.mem, a, NONE, p, Fast(j));
    assert ChunkOk(a, p);
    SetLink(s.mem, a', p, p + 8, s.heads[j]);
    KeptTags(s.mem, m', a', NONE);
    SetFdKeepsBins(s.mem, a, p, s.heads[j]);
    KeptLists(s.mem, m', s.bins, WithStatus(a, p, InUse), a', s.rings);
    KeptSizes(a, a', s.rings, s.mem, s.bins);
    forall q | q in a.at && q != p && a.at[q].status.InUse?
      ensures PayloadKept(s.mem, m', a, q)
    {
      assert ChunkOk(a, q);
      assert PayloadKept(s.mem, m', a', q);
    }
  }

  lemma SetFdKeepsBins(m: Memory, a: Arena, p: nat, v: nat)
    requires Tiling(a) && Has(a, p, InUse)
    ensures LinksKept(m, SetFd(m, p, v), a) && WithStatus(a, p, InUse) == a
  {
    assert ChunkOk(a, p);
    SetInside(m, a, p, p + 8, v);
  }

  // ---------------------------------------------------------------- memory from the system

  function GrownTop(a: Arena, top: nat, extra: nat): Arena
    requires top in a.at
  {
    a.(end := a.end + extra, at := a.at[top := a.at[top].(size := a.at[top].size + extra)])
  }

  /** The break moves up by extra bytes, and the top with it. */
  function GrowStep(s: State, extra: nat): State
    requires s.top in s.arena.at
  {
    var a' := GrownTop(s.arena, s.top, extra);
    s.(mem := SetHead(s.mem, s.top, a'.at[s.top].size), arena := a')
  }

  /** The first memory obtained becomes the top. */
  function FirstTopStep(s: State, size: nat): State {
    var base := s.arena.base;
    s.(mem := SetHead(s.mem, base, size), arena := Arena(base, base + size, map[base := Chunk(size, 0, Top)]),
      top := base)
  }

  lemma FirstTopSound(s: State, size: nat)
    requires Sound(s, NONE) && size % 8 == 0 && s.arena.base % 8 == 0 && s.top == s.bins && MINSIZE <= size
    ensures var s' := FirstTopStep(s, size);
      Sound(s', NONE) && PayloadsKept(s.mem, s'.mem, s.arena, NONE) && SameLive(s.arena, s'.arena, NONE)
    ensures var a' := FirstTopStep(s, size).arena;
      SameBinned(s.arena, a') && SameFast(s.arena, a')
  {
    var s' := FirstTopStep(s, size);
    var a, a' := s.arena, s'.arena;
    assert Tiling(a') by {
      assert ChunkOk(a', a.base) && Aligned(a', a.base) && Apart(a', a.base, a.base);
    }
    assert TagOk(s'.mem, a', NONE, a.base);
    KeptStructure(s, NONE, s'.mem, a');
  }

  lemma GrowSound(s: State, extra: nat)
    requires Sound(s, NONE) && extra % 8 == 0 && s.top in s.arena.at
    ensures var s' := GrowStep(s, extra);
      Sound(s', NONE) && PayloadsKept(s.mem, s'.mem, s.arena, NONE) && SameLive(s.arena, s'.arena, NONE)
    ensures var a' := GrowStep(s, extra).arena;
      SameBinned(s.arena, a') && SameFast(s.arena, a')
  {
    TopIsLast(s, NONE);
    assert ChunkOk(s.arena, s.top);
    forall q | q in s.arena.at && q != s.top
      ensures Followed(s.arena, q)
    {
      LastIsTop(s, NONE, q);
    }
    GrowTiling(s.arena, s.top, extra);
    GrowTags(s.mem, s.arena, s.top, extra);
    HeadKept(s.mem, s.arena, s.top, GrownTop(s.arena, s.top, extra).at[s.top].size);
    GrowSame(s.arena, s.top, extra);
    GrowOnly(s.arena, s.top, extra);
    KeptStructure(s, NONE, GrowStep(s, extra).mem, GrownTop(s.arena, s.top, extra));
  }

  lemma GrowOnly(a: Arena, t: nat, extra: nat)
    requires Has(a, t, Top) && OnlyTop(a, t)
    ensures var a' := GrownTop(a, t, extra);
      OnlyTop(a', t) && Has(a', t, Top)
  {
  }

  lemma GrowSame(a: Arena, t: nat, extra: nat)
    requires Tiling(a) && Has(a, t, Top)
    ensures var a' := GrownTop(a, t, extra);
      SameBinned(a, a') && SameFast(a, a') && SameLive(a, a', NONE)
  {
    var a' := GrownTop(a, t, extra);
    forall q | q != t
      ensures SameAt(a, a', q)
    {
    }
    SameOthers(a, a', t, t);
    SameLiveOthers(a, a', t, t);
    ZeroNotIn(a);
  }

  ghost predicate Followed(a: Arena, q: nat)
    requires q in a.at
  {
    Next(a, q) in a.at
  }

  ghost predicate AllFollowed(a: Arena, t: nat) {
    forall q {:trigger Followed(a, q)} :: q in a.at && q != t ==> Followed(a, q)
  }

  lemma GrowTiling(a: Arena, t: nat, extra: nat)
    requires Tiling(a) && t in a.at && Next(a, t) == a.end && extra % 8 == 0
    requires AllFollowed(a, t)
    ensures Tiling(GrownTop(a, t, extra))
  {
    var a' := GrownTop(a, t, extra);
    assert ChunkOk(a, t);
    forall q | q in a'.at
      ensures ChunkOk(a', q) && Aligned(a', q)
    {
      assert ChunkOk(a, q) && Aligned(a, q);
      if q == t {
        EightsAdd(a.at[t].size, extra);
      } else {
        assert Followed(a, q) && ChunkOk(a, Next(a, q));
      }
    }
    forall q, r | q in a'.at && r in a'.at
      ensures Apart(a', q, r)
    {
      assert Apart(a, q, r);
      if q == t {
        assert ChunkOk(a, r);
      }
    }
  }

  lemma GrowTags(m: Memory, a: Arena, t: nat, extra: nat)
    requires Tiling(a) && Has(a, t, Top) && Next(a, t) == a.end && Tags(m, a, NONE)
    requires AllFollowed(a, t)
    ensures var a' := GrownTop(a, t, extra);
      Tags(SetHead(m, t, a'.at[t].size), a', NONE)
  {
    var a' := GrownTop(a, t, extra);
    forall q | q in a'.at && q != NONE
      ensures TagOk(SetHead(m, t, a'.at[t].size), a', NONE, q)
    {
      assert TagOk(m, a, NONE, q) && ChunkOk(a, q) && Apart(a, q, t) && Apart(a, t, q);
      if q != t {
        assert Followed(a, q) && Apart(a, Next(a, q), t) && Apart(a, t, Next(a, q));
      }
    }
  }
}
