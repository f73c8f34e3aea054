/**
 * The physical layer of the allocator (shared/malloc.c): chunks that tile the arena, their head and
 * foot tags, and the PREV_INUSE bit. Memory is a map from word addresses to words; a word that was
 * never written is 0.
 */
module BoundaryTags {
  import opened BinIndex

  type Memory = map<nat, nat>

  function Word(m: Memory, a: nat): nat {
    if a in m then m[a] else 0
  }

  // fields of a chunk: prev_size, size, fd, bk
  function Foot(m: Memory, p: nat): nat { Word(m, p) }

  function Head(m: Memory, p: nat): nat { Word(m, p + 4) }

  function Fd(m: Memory, p: nat): nat { Word(m, p + 8) }

  function Bk(m: Memory, p: nat): nat { Word(m, p + 12) }

  /** chunksize: heads are multiples of 8 plus the PREV_INUSE bit. */
  function SizeOf(head: nat): nat { head / 2 * 2 }

  datatype Status =
    | InUse                // handed out
    | Fast(index: nat)     // in a fastbin: keeps its use bit
    | Binned(bin: nat)     // in bin 1, the unsorted list, or a regular bin
    | Loose                // free, in no list: only while a routine works on it
    | Top

  datatype Chunk = Chunk(size: nat, before: nat, status: Status)

  /** The arena [base, end) and the chunks it is divided into; `before` is the physical predecessor. */
  datatype Arena = Arena(base: nat, end: nat, at: map<nat, Chunk>)

  predicate Used(s: Status) { s.InUse? || s.Fast? }

  predicate PrevUsed(a: Arena, p: nat)
    requires p in a.at
  {
    p == a.base || (a.at[p].before in a.at && Used(a.at[a.at[p].before].status))
  }

  // ---------------------------------------------------------------- tiling

  ghost predicate ChunkOk(a: Arena, p: nat)
    requires p in a.at
  {
    var s := a.at[p].size;
    && a.base <= p && s >= MINSIZE && p + s <= a.end
    && (p + s < a.end ==> p + s in a.at && a.at[p + s].before == p)
    && (p != a.base ==> a.at[p].before in a.at && a.at[p].before + a.at[a.at[p].before].size == p)
  }

  ghost predicate Aligned(a: Arena, p: nat)
    requires p in a.at
  {
    p % 8 == 0 && a.at[p].size % 8 == 0
  }

  /** Chunk p ends before chunk q starts, if it starts first. */
  ghost predicate Apart(a: Arena, p: nat, q: nat)
    requires p in a.at && q in a.at
  {
    p < q ==> p + a.at[p].size <= q
  }

  ghost predicate Tiling(a: Arena) {
    && 0 < a.base <= a.end
    && (a.base < a.end ==> a.base in a.at)
    && (forall p {:trigger ChunkOk(a, p)} :: p in a.at ==> ChunkOk(a, p))
    && (forall p {:trigger Aligned(a, p)} :: p in a.at ==> Aligned(a, p))
    && (forall p, q {:trigger Apart(a, p, q)} :: p in a.at && q in a.at ==> Apart(a, p, q))
  }

  function Next(a: Arena, p: nat): nat
    requires p in a.at
  {
    p + a.at[p].size
  }

  // ---------------------------------------------------------------- tags

  /**
   * Head, foot and neighbourhood of p. A chunk x that is being assembled is exempt, and so are the
   * PREV_INUSE bit and the neighbourhood of the chunk after it.
   */
  ghost predicate TagOk(m: Memory, a: Arena, x: nat, p: nat)
    requires p in a.at
  {
    && (if AfterExempt(a, x, p)
        then Head(m, p) == a.at[p].size || Head(m, p) == a.at[p].size + 1
        else Head(m, p) == a.at[p].size + (if PrevUsed(a, p) then 1 else 0)
             && (!Used(a.at[p].status) ==> PrevUsed(a, p)))
    && (Free(a.at[p].status) ==> Foot(m, p + a.at[p].size) == a.at[p].size)
  }

  predicate AfterExempt(a: Arena, x: nat, p: nat)
    requires p in a.at
  {
    x != NONE && p != a.base && a.at[p].before == x
  }

  predicate Free(s: Status) { s.Binned? || s.Loose? }

  const NONE: nat := 0     // no chunk is exempt: chunks never lie at address 0

  ghost predicate Tags(m: Memory, a: Arena, x: nat) {
    forall p {:trigger TagOk(m, a, x, p)} :: p in a.at && p != x ==> TagOk(m, a, x, p)
  }

  // ---------------------------------------------------------------- writes and what they leave alone

  function Set(m: Memory, w: nat, v: nat): (m': Memory)
    ensures forall u :: Word(m', u) == if u == w then v else Word(m, u)
  {
    m[w := v]
  }

  /** The head of p becomes this size with the use bit set. */
  function SetHead(m: Memory, p: nat, size: nat): Memory {
    Set(m, p + 4, size + 1)
  }

  function SetFd(m: Memory, p: nat, q: nat): Memory {
    Set(m, p + 8, q)
  }

  function SetBk(m: Memory, p: nat, q: nat): Memory {
    Set(m, p + 12, q)
  }

  /** The word after p, its foot, becomes this size. */
  function SetFoot(m: Memory, p: nat, size: nat): Memory {
    Set(m, p + size, size)
  }

  /** No word of a chunk in use other than x has changed, from its fd field to the foot after it. */
  ghost predicate PayloadsKept(m: Memory, m': Memory, a: Arena, x: nat) {
    forall p {:trigger PayloadKept(m, m', a, p)} :: p in a.at && p != x && a.at[p].status.InUse? ==>
      PayloadKept(m, m', a, p)
  }

  ghost predicate PayloadKept(m: Memory, m': Memory, a: Arena, p: nat)
    requires p in a.at
  {
    forall w :: p + 8 <= w < p + a.at[p].size + 4 ==> Word(m', w) == Word(m, w)
  }

  /** The links of listed chunks and those of the bin headers, which lie below `heap`, have not changed. */
  ghost predicate LinksKept(m: Memory, m': Memory, a: Arena) {
    && (forall w: nat :: w < a.base ==> Word(m', w) == Word(m, w))
    && forall p {:trigger LinkKept(m, m', p)} :: p in a.at && Listed(a.at[p].status) ==> LinkKept(m, m', p)
  }

  predicate LinkKept(m: Memory, m': Memory, p: nat) {
    Fd(m', p) == Fd(m, p) && Bk(m', p) == Bk(m, p)
  }

  predicate Listed(s: Status) { s.Binned? || s.Fast? }

  ghost predicate TagsKept(m: Memory, m': Memory, a: Arena) {
    forall p {:trigger TagKept(m, m', a, p)} :: p in a.at ==> TagKept(m, m', a, p)
  }

  predicate TagKept(m: Memory, m': Memory, a: Arena, p: nat)
    requires p in a.at
  {
    Head(m', p) == Head(m, p) && (Free(a.at[p].status) ==> Foot(m', p + a.at[p].size) == Foot(m, p + a.at[p].size))
  }

  lemma KeptTags(m: Memory, m': Memory, a: Arena, x: nat)
    requires Tags(m, a, x) && TagsKept(m, m', a)
    ensures Tags(m', a, x)
  {
    forall p | p in a.at && p != x
      ensures TagOk(m', a, x, p)
    {
      assert TagOk(m, a, x, p) && TagKept(m, m', a, p);
    }
  }

  /** A link of a chunk that is not in use, or of a header below the arena. */
  ghost predicate LinkWord(a: Arena, n: nat, w: nat) {
    (w == n + 8 || w == n + 12) && (w < a.base || (n in a.at && !a.at[n].status.InUse?))
  }

  lemma SetLink(m: Memory, a: Arena, n: nat, w: nat, v: nat)
    requires Tiling(a) && LinkWord(a, n, w)
    ensures TagsKept(m, Set(m, w, v), a) && PayloadsKept(m, Set(m, w, v), a, NONE)
  {
    var m' := Set(m, w, v);
    forall p | p in a.at
      ensures TagKept(m, m', a, p)
    {
      assert ChunkOk(a, p);
      if n in a.at {
        assert ChunkOk(a, n) && Apart(a, n, p) && Apart(a, p, n);
        if p + a.at[p].size in a.at {
          assert Apart(a, p + a.at[p].size, n) && Apart(a, n, p + a.at[p].size);
        }
      }
    }
    forall p | p in a.at && p != NONE && a.at[p].status.InUse?
      ensures PayloadKept(m, m', a, p)
    {
      assert ChunkOk(a, p);
      if n in a.at {
        assert ChunkOk(a, n) && Apart(a, n, p) && Apart(a, p, n);
      }
    }
  }

  /** Words of chunk p after its foot word, the foot of p and the head of the chunk after it. */
  predicate Inside(a: Arena, p: nat, w: nat) {
    p in a.at && p + 4 <= w < p + a.at[p].size + 8
  }

  /** Writing there changes no link and no payload except those of p. */
  lemma SetInside(m: Memory, a: Arena, p: nat, w: nat, v: nat)
    requires Tiling(a) && Inside(a, p, w) && !Listed(a.at[p].status)
    ensures LinksKept(m, Set(m, w, v), a) && PayloadsKept(m, Set(m, w, v), a, p)
  {
    var m' := Set(m, w, v);
    assert ChunkOk(a, p);
    forall q | q in a.at && Listed(a.at[q].status)
      ensures LinkKept(m, m', q)
    {
      assert ChunkOk(a, q) && Apart(a, p, q) && Apart(a, q, p);
    }
    forall q | q in a.at && q != p && a.at[q].status.InUse?
      ensures PayloadKept(m, m', a, q)
    {
      assert ChunkOk(a, q) && Apart(a, p, q) && Apart(a, q, p);
    }
  }

  /** Writing the head, the inside or the foot of the exempt chunk, or clearing the bit after it. */
  lemma SetExempt(m: Memory, a: Arena, x: nat, w: nat, v: nat)
    requires Tiling(a) && Tags(m, a, x) && Inside(a, x, w)
    requires w == Next(a, x) + 4 && Next(a, x) in a.at ==> v == a.at[Next(a, x)].size || v == a.at[Next(a, x)].size + 1
    ensures Tags(Set(m, w, v), a, x)
  {
    var m' := Set(m, w, v);
    assert ChunkOk(a, x);
    forall p | p in a.at && p != x
      ensures TagOk(m', a, x, p)
    {
      assert TagOk(m, a, x, p) && ChunkOk(a, p) && Apart(a, p, x) && Apart(a, x, p);
      if Next(a, x) in a.at {
        assert ChunkOk(a, Next(a, x)) && Apart(a, p, Next(a, x)) && Apart(a, Next(a, x), p);
      }
    }
  }

  /** The chunks in use, other than x before the step, are the same before and after it. */
  ghost predicate SameLive(a: Arena, a': Arena, x: nat) {
    && (forall p {:trigger a.at[p]} :: p in a.at && a.at[p].status.InUse? && p != x ==>
          p in a'.at && a'.at[p].status.InUse? && a'.at[p].size == a.at[p].size)
    && forall p {:trigger a'.at[p]} :: p in a'.at && a'.at[p].status.InUse? ==>
      p != x && p in a.at && a.at[p].status.InUse?
  }

  // ---------------------------------------------------------------- changes of status

  function WithStatus(a: Arena, p: nat, s: Status): (a': Arena)
    requires p in a.at
  {
    a.(at := a.at[p := a.at[p].(status := s)])
  }

  lemma StatusTiling(a: Arena, p: nat, s: Status)
    requires Tiling(a) && p in a.at
    ensures Tiling(WithStatus(a, p, s))
  {
    var a' := WithStatus(a, p, s);
    forall q | q in a'.at
      ensures ChunkOk(a', q) && Aligned(a', q)
    {
      assert ChunkOk(a, q) && Aligned(a, q);
    }
    forall q, r | q in a'.at && r in a'.at
      ensures Apart(a', q, r)
    {
      assert Apart(a, q, r);
    }
  }

  /** A change that keeps a chunk used, or keeps it free, changes no tag. */
  lemma StatusTags(m: Memory, a: Arena, x: nat, p: nat, s: Status)
    requires Tags(m, a, x) && p in a.at && Used(s) == Used(a.at[p].status)
    requires Free(s) ==> p == x || Free(a.at[p].status)
    ensures Tags(m, WithStatus(a, p, s), x)
  {
    var a' := WithStatus(a, p, s);
    forall q | q in a'.at && q != x
      ensures TagOk(m, a', x, q)
    {
      assert TagOk(m, a, x, q);
    }
  }

  /** Any chunk may become the exempt one, and then change its status. */
  lemma Exempt(m: Memory, a: Arena, p: nat, s: Status)
    requires Tiling(a) && (Tags(m, a, NONE) || Tags(m, a, p)) && p in a.at
    ensures Tags(m, WithStatus(a, p, s), p)
  {
    var a' := WithStatus(a, p, s);
    assert ChunkOk(a, p);
    forall q | q in a'.at && q != p
      ensures TagOk(m, a', p, q)
    {
      assert ChunkOk(a, q);
      assert TagOk(m, a, NONE, q) || TagOk(m, a, p, q);
    }
  }

  /** The exempt chunk is finished: the words it needs are in place. */
  lemma Settle(m: Memory, a: Arena, x: nat)
    requires Tiling(a) && Tags(m, a, x) && x in a.at && PrevUsed(a, x)
    requires Head(m, x) == a.at[x].size + 1
    requires Free(a.at[x].status) ==> Foot(m, Next(a, x)) == a.at[x].size
    requires var n := Next(a, x);
      n in a.at ==>
        Head(m, n) == a.at[n].size + (if Used(a.at[x].status) then 1 else 0)
        && (!Used(a.at[n].status) ==> Used(a.at[x].status))
    ensures Tags(m, a, NONE)
  {
    forall q | q in a.at && q != NONE
      ensures TagOk(m, a, NONE, q)
    {
      assert ChunkOk(a, q);
      if q != x {
        assert TagOk(m, a, x, q);
      }
    }
  }

  // ---------------------------------------------------------------- merging neighbours

  /** Chunk p absorbs the chunk after it. */
  function Merged(a: Arena, p: nat): (a': Arena)
    requires p in a.at && Next(a, p) in a.at
  {
    var q := Next(a, p);
    var r := Next(a, q);
    var big := (a.at - {q})[p := Chunk(a.at[p].size + a.at[q].size, a.at[p].before, Loose)];
    a.(at := if r in big then big[r := big[r].(before := p)] else big)
  }

  lemma MergedTiling(a: Arena, p: nat)
    requires Tiling(a) && p in a.at && Next(a, p) in a.at
    ensures Tiling(Merged(a, p))
    ensures p in Merged(a, p).at && Merged(a, p).at[p].size == a.at[p].size + a.at[Next(a, p)].size
  {
    var a', q := Merged(a, p), Next(a, p);
    assert ChunkOk(a, p) && ChunkOk(a, q);
    forall r | r in a'.at
      ensures ChunkOk(a', r) && Aligned(a', r)
    {
      MergedChunk(a, p, r);
    }
    forall r, t | r in a'.at && t in a'.at
      ensures Apart(a', r, t)
    {
      MergedApart(a, p, r, t);
    }
  }

  lemma MergedApart(a: Arena, p: nat, r: nat, t: nat)
    requires Tiling(a) && p in a.at && Next(a, p) in a.at && r in Merged(a, p).at && t in Merged(a, p).at
    ensures Apart(Merged(a, p), r, t)
  {
    var q := Next(a, p);
    assert ChunkOk(a, p) && Apart(a, r, t);
    if r == p {
      assert Merged(a, p).at[r].size == a.at[p].size + a.at[q].size;
      assert t != q && Apart(a, q, t);
    } else {
      assert Merged(a, p).at[r].size == a.at[r].size;
    }
  }

  lemma MergedChunk(a: Arena, p: nat, r: nat)
    requires Tiling(a) && p in a.at && Next(a, p) in a.at && r in Merged(a, p).at
    ensures ChunkOk(Merged(a, p), r) && Aligned(Merged(a, p), r)
  {
    var q := Next(a, p);
    assert ChunkOk(a, p) && ChunkOk(a, q) && ChunkOk(a, r);
    assert Aligned(a, p) && Aligned(a, q) && Aligned(a, r);
    EightsAdd(a.at[p].size, a.at[q].size);
  }

  lemma EightsAdd(s: nat, t: nat)
    requires s % 8 == 0 && t % 8 == 0
    ensures (s + t) % 8 == 0 && (s >= t ==> (s - t) % 8 == 0)
  {
  }

  /** Merging the exempt chunk with a free neighbour leaves the whole exempt. */
  lemma MergedTags(m: Memory, a: Arena, p: nat, x: nat)
    requires Tiling(a) && p in a.at && Next(a, p) in a.at && Tags(m, a, x) && (x == p || x == Next(a, p))
    requires x == p ==> !Used(a.at[Next(a, p)].status)
    ensures Tags(m, Merged(a, p), p)
  {
    var a', q := Merged(a, p), Next(a, p);
    assert ChunkOk(a, p) && ChunkOk(a, q);
    forall r | r in a'.at && r != p
      ensures TagOk(m, a', p, r)
    {
      assert TagOk(m, a, x, r) && ChunkOk(a, r);
      assert r != q;
      if a.at[r].before == q && r != a.base {
        assert AfterExempt(a', p, r);
      }
    }
  }

  // ---------------------------------------------------------------- splitting a chunk

  /** The first nb bytes of p are handed out; the rest becomes a chunk of status s. */
  function Split(a: Arena, p: nat, nb: nat, s: Status): (a': Arena)
    requires p in a.at && nb <= a.at[p].size
  {
    var r, n := p + nb, Next(a, p);
    var two := a.at[p := Chunk(nb, a.at[p].before, InUse)][r := Chunk(a.at[p].size - nb, p, s)];
    a.(at := if n in two then two[n := two[n].(before := r)] else two)
  }

  /** No chunk starts inside another. */
  lemma SplitNew(a: Arena, p: nat, nb: nat)
    requires Tiling(a) && p in a.at && 0 < nb < a.at[p].size
    ensures p + nb !in a.at
  {
    assert p + nb in a.at ==> Apart(a, p, p + nb);
  }

  lemma SplitTiling(a: Arena, p: nat, nb: nat, s: Status)
    requires Tiling(a) && p in a.at && nb % 8 == 0 && MINSIZE <= nb && nb + MINSIZE <= a.at[p].size
    ensures Tiling(Split(a, p, nb, s)) && p + nb !in a.at
  {
    var a', n, r := Split(a, p, nb, s), Next(a, p), p + nb;
    SplitNew(a, p, nb);
    forall q | q in a'.at
      ensures ChunkOk(a', q) && Aligned(a', q)
    {
      SplitChunk(a, p, nb, s, q);
    }
    forall q, t | q in a'.at && t in a'.at
      ensures Apart(a', q, t)
    {
      SplitApart(a, p, nb, s, q, t);
    }
  }

  lemma SplitChunk(a: Arena, p: nat, nb: nat, s: Status, q: nat)
    requires Tiling(a) && p in a.at && nb % 8 == 0 && MINSIZE <= nb && nb + MINSIZE <= a.at[p].size
    requires p + nb !in a.at && q in Split(a, p, nb, s).at
    ensures ChunkOk(Split(a, p, nb, s), q) && Aligned(Split(a, p, nb, s), q)
  {
    assert ChunkOk(a, p) && Aligned(a, p);
    EightsAdd(p, nb);
    EightsAdd(a.at[p].size, nb);
    if q != p + nb {
      assert ChunkOk(a, q) && Aligned(a, q);
    }
  }

  lemma SplitApart(a: Arena, p: nat, nb: nat, s: Status, q: nat, t: nat)
    requires Tiling(a) && p in a.at && MINSIZE <= nb && nb + MINSIZE <= a.at[p].size
    requires p + nb !in a.at && q in Split(a, p, nb, s).at && t in Split(a, p, nb, s).at
    ensures Apart(Split(a, p, nb, s), q, t)
  {
    var r := p + nb;
    assert q == r || (Apart(a, q, p) && Apart(a, p, q));
    assert t == r || Apart(a, p, t);
    assert q == r || t == r || Apart(a, q, t);
  }

  /** Tags after a split: heads of both parts, and the foot of a remainder that is not the top. */
  lemma SplitTags(m: Memory, a: Arena, p: nat, nb: nat, s: Status, m': Memory)
    requires Tiling(a) && Tags(m, a, NONE) && p in a.at && !Used(a.at[p].status)
    requires nb % 8 == 0 && MINSIZE <= nb && nb + MINSIZE <= a.at[p].size
    requires s.Top? || (Free(s) && !a.at[p].status.Top?)
    requires var rs := a.at[p].size - nb;
      && (s.Top? ==> Next(a, p) !in a.at && m' == SetHead(SetHead(m, p, nb), p + nb, rs))
      && (!s.Top? ==> m' == SetFoot(SetHead(SetHead(m, p, nb), p + nb, rs), p + nb, rs))
    ensures Tags(m', Split(a, p, nb, s), NONE)
  {
    var a', r := Split(a, p, nb, s), p + nb;
    SplitTiling(a, p, nb, s);
    assert ChunkOk(a, p) && TagOk(m, a, NONE, p);
    forall q | q in a'.at && q != NONE
      ensures TagOk(m', a', NONE, q)
    {
      if q != r && q != p {
        SplitTagOf(m, a, p, nb, s, m', q);
      }
    }
  }

  /** The tags of the other chunks. */
  lemma SplitTagOf(m: Memory, a: Arena, p: nat, nb: nat, s: Status, m': Memory, q: nat)
    requires Tiling(a) && Tags(m, a, NONE) && p in a.at && !Used(a.at[p].status)
    requires MINSIZE <= nb && nb + MINSIZE <= a.at[p].size && (s.Top? || (Free(s) && !a.at[p].status.Top?))
    requires var rs := a.at[p].size - nb;
      && (s.Top? ==> Next(a, p) !in a.at && m' == SetHead(SetHead(m, p, nb), p + nb, rs))
      && (!s.Top? ==> m' == SetFoot(SetHead(SetHead(m, p, nb), p + nb, rs), p + nb, rs))
    requires q in Split(a, p, nb, s).at && q != NONE && q != p && q != p + nb
    ensures TagOk(m', Split(a, p, nb, s), NONE, q)
  {
    assert ChunkOk(a, p) && TagOk(m, a, NONE, q) && ChunkOk(a, q) && Apart(a, p, q) && Apart(a, q, p);
    assert TagOk(m, a, NONE, p);
    if q == Next(a, p) {
      assert a.at[q].before == p && Split(a, p, nb, s).at[q] == a.at[q].(before := p + nb);
    } else {
      assert (q != a.base ==> a.at[q].before != p) && Split(a, p, nb, s).at[q] == a.at[q];
      assert q != a.base ==> a.at[q].before != p + nb by { SplitNew(a, p, nb); }
    }
  }
}
