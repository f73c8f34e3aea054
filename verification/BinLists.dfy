/**
 * The lists of free chunks of the allocator (shared/malloc.c): a doubly linked ring through the
 * header of each bin, and the singly linked fastbins. Both run through the words of the chunks.
 */
module BinLists {
  import opened BinIndex
  import opened BoundaryTags

  // ---------------------------------------------------------------- rings

  /** The position after k, around a ring of n nodes. */
  function Succ(n: nat, k: nat): (s: nat)
    requires k < n
    ensures s < n
  {
    if k + 1 < n then k + 1 else 0
  }

  function After(r: seq<nat>, k: nat): nat
    requires k < |r|
  {
    r[Succ(|r|, k)]
  }

  predicate Linked(m: Memory, r: seq<nat>, k: nat)
    requires k < |r|
  {
    Fd(m, r[k]) == After(r, k) && Bk(m, After(r, k)) == r[k]
  }

  ghost predicate Ring(m: Memory, r: seq<nat>) {
    |r| >= 1 && forall k {:trigger Linked(m, r, k)} :: 0 <= k < |r| ==> Linked(m, r, k)
  }

  /** Link fields of different nodes do not overlap. */
  predicate Spaced(x: nat, y: nat) {
    x + 8 <= y || y + 8 <= x
  }

  ghost predicate AllSpaced(r: seq<nat>) {
    forall j, k {:trigger Spaced(r[j], r[k])} :: 0 <= j < |r| && 0 <= k < |r| && j != k ==> Spaced(r[j], r[k])
  }

  /** Memory once the two nodes beside a chunk have been linked to each other. */
  function Unlinked(m: Memory, bck: nat, fwd: nat): Memory {
    SetFd(SetBk(m, fwd, bck), bck, fwd)
  }

  function Without(r: seq<nat>, k: nat): seq<nat>
    requires k < |r|
  {
    r[..k] + r[k + 1..]
  }

  lemma RemoveNode(m: Memory, r: seq<nat>, k: nat)
    requires Ring(m, r) && AllSpaced(r) && 1 <= k < |r|
    ensures Ring(Unlinked(m, r[k - 1], After(r, k)), Without(r, k))
    ensures Bk(m, r[k]) == r[k - 1] && Fd(m, r[k]) == After(r, k)
    ensures r[k] !in Without(r, k)
  {
    var m', r' := Unlinked(m, r[k - 1], After(r, k)), Without(r, k);
    assert Linked(m, r, k) && Linked(m, r, k - 1);
    assert Linked(m, r, k) && Linked(m, r, k - 1);
    forall j | 0 <= j < |r'|
      ensures Linked(m', r', j)
    {
      var i := if j < k then j else j + 1;
      assert r'[j] == r[i] && Linked(m, r, i);
      PairsSpaced(r, i, k - 1);
      PairsSpaced(r, i, Succ(|r|, k));
      PairsSpaced(r, Succ(|r|, i), k - 1);
      PairsSpaced(r, Succ(|r|, i), Succ(|r|, k));
      PairsSpaced(r, k - 1, Succ(|r|, k));
      assert After(r', j) == if i == k - 1 then After(r, k) else After(r, i);
    }
    forall j | 0 <= j < |r'|
      ensures r'[j] != r[k]
    {
      PairsSpaced(r, if j < k then j else j + 1, k);
    }
  }

  lemma PairsSpaced(r: seq<nat>, i: nat, k: nat)
    requires AllSpaced(r) && i < |r| && k < |r|
    ensures i != k ==> r[i] != r[k] && Spaced(r[i], r[k])
  {
    assert i != k ==> Spaced(r[i], r[k]);
  }

  /** Memory once p has been linked between two nodes, in both directions. */
  function Inserted(m: Memory, p: nat, bck: nat, fwd: nat): Memory {
    SetFd(SetBk(SetFd(SetBk(m, p, bck), p, fwd), fwd, p), bck, p)
  }

  /** p comes right after position k. */
  function With(r: seq<nat>, k: nat, p: nat): seq<nat>
    requires k < |r|
  {
    r[..k + 1] + [p] + r[k + 1..]
  }

  lemma InsertNode(m: Memory, r: seq<nat>, k: nat, p: nat)
    requires Ring(m, r) && AllSpaced(r) && k < |r| && SpacedFrom(r, p)
    ensures Ring(Inserted(m, p, r[k], After(r, k)), With(r, k, p))
  {
    var m1 := SetFd(SetBk(m, p, r[k]), p, After(r, k));
    forall j | 0 <= j < |r|
      ensures LinkKept(m, m1, r[j])
    {
      assert Spaced(p, r[j]);
    }
    SameRing(m, m1, r);
    EnterRing(m1, r, k, p);
  }

  ghost predicate SpacedFrom(r: seq<nat>, p: nat) {
    forall j {:trigger Spaced(p, r[j])} :: 0 <= j < |r| ==> Spaced(p, r[j])
  }

  lemma EnterRing(m: Memory, r: seq<nat>, k: nat, p: nat)
    requires Ring(m, r) && AllSpaced(r) && k < |r| && SpacedFrom(r, p) && Fd(m, p) == After(r, k) && Bk(m, p) == r[k]
    ensures Ring(SetFd(SetBk(m, After(r, k), p), r[k], p), With(r, k, p))
  {
    var m', r' := SetFd(SetBk(m, After(r, k), p), r[k], p), With(r, k, p);
    assert Spaced(p, r[k]) && Spaced(p, r[Succ(|r|, k)]);
    PairsSpaced(r, k, Succ(|r|, k));
    forall j | 0 <= j < |r'|
      ensures Linked(m', r', j)
    {
      if j == k {
        assert r'[j] == r[k] && After(r', j) == p;
      } else if j == k + 1 {
        assert r'[j] == p && After(r', j) == After(r, k);
      } else {
        var i := if j < k then j else j - 1;
        assert Linked(m, r, i) && r'[j] == r[i] && After(r', j) == After(r, i);
        PairsSpaced(r, i, k);
        PairsSpaced(r, i, Succ(|r|, k));
        PairsSpaced(r, Succ(|r|, i), k);
        PairsSpaced(r, Succ(|r|, i), Succ(|r|, k));
      }
    }
  }

  /** A ring is unaffected when the links of its nodes are. */
  lemma SameRing(m: Memory, m': Memory, r: seq<nat>)
    requires Ring(m, r)
    requires forall j {:trigger LinkKept(m, m', r[j])} :: 0 <= j < |r| ==> LinkKept(m, m', r[j])
    ensures Ring(m', r)
  {
    forall k | 0 <= k < |r|
      ensures Linked(m', r, k)
    {
      assert Linked(m, r, k) && LinkKept(m, m', r[k]);
      assert LinkKept(m, m', r[Succ(|r|, k)]);
    }
  }

  // ---------------------------------------------------------------- bins

  /** bin_at: the header of bin i, whose link fields are words 2i and 2i + 1 of the array `bins`. */
  function Header(bins: nat, i: nat): nat
    requires i >= 1
  {
    bins + 8 * i - 8
  }

  const UNSORTED: nat := 1

  /** The allocator's variables lie below its arena. */
  predicate Below(bins: nat, a: Arena) {
    bins + 8 * NBINS <= a.base
  }

  ghost predicate Member(a: Arena, p: nat, i: nat) {
    p in a.at && a.at[p].status == Binned(i)
  }

  ghost predicate BinOk(m: Memory, bins: nat, a: Arena, i: nat, r: seq<nat>)
    requires i >= 1
  {
    && Ring(m, r) && AllSpaced(r) && r[0] == Header(bins, i)
    && forall k {:trigger Member(a, r[k], i)} :: 1 <= k < |r| ==> Member(a, r[k], i)
  }

  ghost predicate InRing(rings: seq<seq<nat>>, p: nat, i: nat) {
    1 <= i < |rings| && p in rings[i]
  }

  /** Every binned chunk is in the ring of its bin, and the rings hold nothing else. */
  ghost predicate Lists(m: Memory, bins: nat, a: Arena, rings: seq<seq<nat>>) {
    && |rings| == NBINS
    && (forall i {:trigger BinOk(m, bins, a, i, rings[i])} :: 1 <= i < NBINS ==> BinOk(m, bins, a, i, rings[i]))
    && forall p {:trigger a.at[p]} :: p in a.at && a.at[p].status.Binned? ==> InRing(rings, p, a.at[p].status.bin)
  }

  /** Headers and chunks that are not in use: the nodes whose link fields the allocator writes. */
  ghost predicate Node(bins: nat, a: Arena, n: nat) {
    || (exists i {:trigger Header(bins, i)} :: 1 <= i < NBINS && n == Header(bins, i))
    || (n in a.at && !a.at[n].status.InUse?)
  }

  lemma NodesSpaced(bins: nat, a: Arena, x: nat, y: nat)
    requires Tiling(a) && Below(bins, a) && Node(bins, a, x) && Node(bins, a, y) && x != y
    ensures Spaced(x, y)
  {
    if x in a.at {
      assert ChunkOk(a, x);
    }
    if y in a.at {
      assert ChunkOk(a, y);
    }
    if x in a.at && y in a.at {
      assert Apart(a, x, y) && Apart(a, y, x);
    }
  }

  /** Writing the links of n leaves those of the other nodes alone. */
  lemma OtherLinks(m: Memory, bins: nat, a: Arena, n: nat, w: nat, v: nat, x: nat)
    requires Tiling(a) && Below(bins, a) && Node(bins, a, n) && Node(bins, a, x) && x != n
      && (w == n + 8 || w == n + 12)
    ensures LinkKept(m, Set(m, w, v), x)
  {
    NodesSpaced(bins, a, n, x);
  }

  lemma RingNodes(m: Memory, bins: nat, a: Arena, rings: seq<seq<nat>>, i: nat, k: nat)
    requires Lists(m, bins, a, rings) && 1 <= i < NBINS && k < |rings[i]|
    ensures Node(bins, a, rings[i][k])
    ensures k == 0 ==> rings[i][k] == Header(bins, i)
    ensures k != 0 ==> Member(a, rings[i][k], i)
  {
    assert BinOk(m, bins, a, i, rings[i]);
    if k != 0 {
      assert Member(a, rings[i][k], i);
    }
  }

  /** Nodes of different rings differ, and so do different positions of a ring. */
  lemma RingsApart(m: Memory, bins: nat, a: Arena, rings: seq<seq<nat>>, i: nat, k: nat, j: nat, l: nat)
    requires Tiling(a) && Below(bins, a) && Lists(m, bins, a, rings)
    requires 1 <= i < NBINS && k < |rings[i]| && 1 <= j < NBINS && l < |rings[j]| && (i != j || k != l)
    ensures rings[i][k] != rings[j][l]
  {
    RingNodes(m, bins, a, rings, i, k);
    RingNodes(m, bins, a, rings, j, l);
    if i == j {
      assert BinOk(m, bins, a, i, rings[i]);
      assert Spaced(rings[i][k], rings[i][l]);
    } else if k == 0 && l != 0 {
      assert ChunkOk(a, rings[j][l]);
    } else if k != 0 && l == 0 {
      assert ChunkOk(a, rings[i][k]);
    }
  }

  /** The binned chunk p is linked to its neighbours in position k of its ring. */
  lemma PositionOf(m: Memory, bins: nat, a: Arena, rings: seq<seq<nat>>, p: nat) returns (k: nat)
    requires Tiling(a) && Below(bins, a) && Lists(m, bins, a, rings) && p in a.at && a.at[p].status.Binned?
    ensures var i := a.at[p].status.bin;
      && 1 <= i < NBINS && 1 <= k < |rings[i]| && rings[i][k] == p
      && Bk(m, p) == rings[i][k - 1] && Fd(m, p) == After(rings[i], k)
  {
    var i := a.at[p].status.bin;
    assert InRing(rings, p, i);
    k :| 0 <= k < |rings[i]| && rings[i][k] == p;
    assert BinOk(m, bins, a, i, rings[i]) && ChunkOk(a, p);
    assert Linked(m, rings[i], k) && Linked(m, rings[i], k - 1);
  }

  // ---------------------------------------------------------------- fastbins

  function FirstOf(l: seq<nat>, k: nat): nat {
    if k < |l| then l[k] else 0
  }

  ghost predicate FastMember(a: Arena, p: nat, j: nat) {
    p in a.at && a.at[p].status == Fast(j) && j <= 7 && a.at[p].size == 8 * j + 16
  }

  /** The chunks found from a fastbin by following fd links, up to NULL. */
  ghost predicate FastOk(m: Memory, a: Arena, j: nat, head: nat, l: seq<nat>) {
    && head == FirstOf(l, 0)
    && (forall k {:trigger Fd(m, l[k])} :: 0 <= k < |l| ==> Fd(m, l[k]) == FirstOf(l, k + 1))
    && (forall k {:trigger FastMember(a, l[k], j)} :: 0 <= k < |l| ==> FastMember(a, l[k], j))
    && forall k, n :: 0 <= k < n < |l| ==> l[k] != l[n]
  }

  ghost predicate InFast(fasts: seq<seq<nat>>, p: nat, j: nat) {
    j < |fasts| && p in fasts[j]
  }

  ghost predicate FastLists(m: Memory, a: Arena, fastbins: seq<nat>, fasts: seq<seq<nat>>) {
    && |fastbins| == NFASTBINS && |fasts| == NFASTBINS
    && (forall j {:trigger FastOk(m, a, j, fastbins[j], fasts[j])} :: 0 <= j < NFASTBINS ==>
          FastOk(m, a, j, fastbins[j], fasts[j]))
    && forall p {:trigger a.at[p]} :: p in a.at && a.at[p].status.Fast? ==> InFast(fasts, p, a.at[p].status.index)
  }

  /** The binned chunks are the same before and after. */
  ghost predicate SameBinned(a: Arena, a': Arena) {
    && (forall p {:trigger a.at[p]} :: p in a.at && a.at[p].status.Binned? ==>
          p in a'.at && a'.at[p].status == a.at[p].status && a'.at[p].size == a.at[p].size)
    && forall p {:trigger a'.at[p]} :: p in a'.at && a'.at[p].status.Binned? ==>
      p in a.at && a.at[p].status == a'.at[p].status
  }

  ghost predicate SameFast(a: Arena, a': Arena) {
    && (forall p {:trigger a.at[p]} :: p in a.at && a.at[p].status.Fast? ==>
          p in a'.at && a'.at[p].status == a.at[p].status && a'.at[p].size == a.at[p].size)
    && forall p {:trigger a'.at[p]} :: p in a'.at && a'.at[p].status.Fast? ==>
      p in a.at && a.at[p].status == a'.at[p].status
  }

  /** The rings survive writes that change none of their links, and changes of the arena that change no binned chunk. */
  lemma KeptLists(m: Memory, m': Memory, bins: nat, a: Arena, a': Arena, rings: seq<seq<nat>>)
    requires Below(bins, a) && Lists(m, bins, a, rings) && SameBinned(a, a')
    requires LinksKept(m, m', a)
    ensures Lists(m', bins, a', rings)
  {
    forall i | 1 <= i < NBINS
      ensures BinOk(m', bins, a', i, rings[i])
    {
      var r := rings[i];
      assert BinOk(m, bins, a, i, r);
      forall k | 0 <= k < |r|
        ensures LinkKept(m, m', r[k]) && (1 <= k ==> Member(a', r[k], i))
      {
        if k != 0 {
          assert Member(a, r[k], i);
        }
      }
      SameRing(m, m', r);
    }
  }

  // ---------------------------------------------------------------- unlinking and inserting

  lemma UnlinkOthers(m: Memory, bins: nat, a: Arena, bck: nat, fwd: nat, x: nat)
    requires Tiling(a) && Below(bins, a) && Node(bins, a, bck) && Node(bins, a, fwd) && Node(bins, a, x)
    requires x != bck && x != fwd
    ensures LinkKept(m, Unlinked(m, bck, fwd), x)
  {
    OtherLinks(m, bins, a, fwd, fwd + 12, bck, x);
    OtherLinks(SetBk(m, fwd, bck), bins, a, bck, bck + 8, fwd, x);
  }

  lemma InsertOthers(m: Memory, bins: nat, a: Arena, p: nat, bck: nat, fwd: nat, x: nat)
    requires Tiling(a) && Below(bins, a) && Node(bins, a, bck) && Node(bins, a, fwd) && Node(bins, a, p)
      && Node(bins, a, x)
    requires x != bck && x != fwd && x != p
    ensures LinkKept(m, Inserted(m, p, bck, fwd), x)
  {
    OtherLinks(m, bins, a, p, p + 12, bck, x);
    var m1 := SetBk(m, p, bck);
    OtherLinks(m1, bins, a, p, p + 8, fwd, x);
    var m2 := SetFd(m1, p, fwd);
    OtherLinks(m2, bins, a, fwd, fwd + 12, p, x);
    OtherLinks(SetBk(m2, fwd, p), bins, a, bck, bck + 8, p, x);
  }

  /** A node as the target of a link write. */
  lemma NodeLink(m: Memory, bins: nat, a: Arena, n: nat, w: nat, v: nat)
    requires Tiling(a) && Below(bins, a) && Node(bins, a, n) && (w == n + 8 || w == n + 12)
    ensures TagsKept(m, Set(m, w, v), a) && PayloadsKept(m, Set(m, w, v), a, NONE)
  {
    SetLink(m, a, n, w, v);
  }

  lemma KeptTwice(m: Memory, m1: Memory, m2: Memory, a: Arena)
    requires TagsKept(m, m1, a) && PayloadsKept(m, m1, a, NONE) && TagsKept(m1, m2, a) && PayloadsKept(m1, m2, a, NONE)
    ensures TagsKept(m, m2, a) && PayloadsKept(m, m2, a, NONE)
  {
    forall p | p in a.at
      ensures TagKept(m, m2, a, p)
    {
      assert TagKept(m, m1, a, p) && TagKept(m1, m2, a, p);
    }
    forall p | p in a.at && p != NONE && a.at[p].status.InUse?
      ensures PayloadKept(m, m2, a, p)
    {
      assert PayloadKept(m, m1, a, p) && PayloadKept(m1, m2, a, p);
    }
  }

  /** Taking chunk p out of its ring. */
  lemma UnlinkLists(m: Memory, bins: nat, a: Arena, rings: seq<seq<nat>>, p: nat, i: nat, k: nat)
    requires Tiling(a) && Below(bins, a) && Lists(m, bins, a, rings)
    requires 1 <= i < NBINS && 1 <= k < |rings[i]| && rings[i][k] == p
    ensures p in a.at && a.at[p].status == Binned(i)
    ensures Bk(m, p) == rings[i][k - 1] && Fd(m, p) == After(rings[i], k)
    ensures Lists(Unlinked(m, Bk(m, p), Fd(m, p)), bins, WithStatus(a, p, Loose), rings[i := Without(rings[i], k)])
  {
    var r := rings[i];
    RingNodes(m, bins, a, rings, i, k);
    assert BinOk(m, bins, a, i, r);
    RemoveNode(m, r, k);
    var m', a', rings' := Unlinked(m, r[k - 1], After(r, k)), WithStatus(a, p, Loose), rings[i := Without(r, k)];
    forall j | 1 <= j < NBINS
      ensures BinOk(m', bins, a', j, rings'[j])
    {
      if j == i {
        WithoutBin(m, bins, a, i, r, k);
      } else {
        assert BinOk(m, bins, a, j, rings[j]);
        forall l | 0 <= l < |rings[j]|
          ensures LinkKept(m, m', rings[j][l]) && (1 <= l ==> Member(a', rings[j][l], j))
        {
          RingsApart(m, bins, a, rings, i, k - 1, j, l);
          RingsApart(m, bins, a, rings, i, Succ(|r|, k), j, l);
          RingNodes(m, bins, a, rings, i, k - 1);
          RingNodes(m, bins, a, rings, i, Succ(|r|, k));
          RingNodes(m, bins, a, rings, j, l);
          UnlinkOthers(m, bins, a, r[k - 1], After(r, k), rings[j][l]);
        }
        SameRing(m, m', rings[j]);
      }
    }
    forall q | q in a'.at && a'.at[q].status.Binned?
      ensures InRing(rings', q, a'.at[q].status.bin)
    {
      assert InRing(rings, q, a.at[q].status.bin);
      if a.at[q].status.bin == i {
        StaysIn(r, k, q);
      }
    }
  }

  lemma StaysIn(r: seq<nat>, k: nat, q: nat)
    requires k < |r| && q in r && q != r[k]
    ensures q in Without(r, k)
  {
    var j :| 0 <= j < |r| && r[j] == q;
    assert Without(r, k)[if j < k then j else j - 1] == q;
  }

  lemma WithoutBin(m: Memory, bins: nat, a: Arena, i: nat, r: seq<nat>, k: nat)
    requires Tiling(a) && i >= 1 && BinOk(m, bins, a, i, r) && 1 <= k < |r| && r[k] in a.at
    ensures BinOk(Unlinked(m, r[k - 1], After(r, k)), bins, WithStatus(a, r[k], Loose), i, Without(r, k))
  {
    RemoveNode(m, r, k);
    var r', a' := Without(r, k), WithStatus(a, r[k], Loose);
    forall j, l | 0 <= j < |r'| && 0 <= l < |r'| && j != l
      ensures Spaced(r'[j], r'[l])
    {
      PairsSpaced(r, if j < k then j else j + 1, if l < k then l else l + 1);
    }
    forall j | 1 <= j < |r'|
      ensures Member(a', r'[j], i)
    {
      var l := if j < k then j else j + 1;
      assert Member(a, r[l], i);
      PairsSpaced(r, l, k);
    }
  }

  /** Putting the loose chunk p into ring i, after position k. */
  lemma InsertLists(m: Memory, bins: nat, a: Arena, rings: seq<seq<nat>>, p: nat, i: nat, k: nat)
    requires Tiling(a) && Below(bins, a) && Lists(m, bins, a, rings) && p in a.at && a.at[p].status.Loose?
    requires 1 <= i < NBINS && k < |rings[i]|
    ensures Lists(Inserted(m, p, rings[i][k], After(rings[i], k)), bins, WithStatus(a, p, Binned(i)),
      rings[i := With(rings[i], k, p)])
  {
    var r := rings[i];
    assert BinOk(m, bins, a, i, r) && Node(bins, a, p);
    var m', a', rings' := Inserted(m, p, r[k], After(r, k)), WithStatus(a, p, Binned(i)), rings[i := With(r, k, p)];
    forall j | 1 <= j < NBINS
      ensures BinOk(m', bins, a', j, rings'[j])
    {
      if j == i {
        forall l | 0 <= l < |r|
          ensures Spaced(p, r[l])
        {
          NotInRing(m, bins, a, rings, p, i, l);
          NodesSpaced(bins, a, p, r[l]);
        }
        WithBin(m, bins, a, i, r, k, p);
      } else {
        assert BinOk(m, bins, a, j, rings[j]);
        forall l | 0 <= l < |rings[j]|
          ensures LinkKept(m, m', rings[j][l]) && (1 <= l ==> Member(a', rings[j][l], j))
        {
          RingsApart(m, bins, a, rings, i, k, j, l);
          RingsApart(m, bins, a, rings, i, Succ(|r|, k), j, l);
          RingNodes(m, bins, a, rings, i, k);
          RingNodes(m, bins, a, rings, i, Succ(|r|, k));
          RingNodes(m, bins, a, rings, j, l);
          NotInRing(m, bins, a, rings, p, j, l);
          InsertOthers(m, bins, a, p, r[k], After(r, k), rings[j][l]);
        }
        SameRing(m, m', rings[j]);
      }
    }
    forall q | q in a'.at && a'.at[q].status.Binned?
      ensures InRing(rings', q, a'.at[q].status.bin)
    {
      if q == p {
        assert With(r, k, p)[k + 1] == p;
      } else {
        assert InRing(rings, q, a.at[q].status.bin);
        if a.at[q].status.bin == i {
          AlsoIn(r, k, p, q);
        }
      }
    }
  }

  lemma AlsoIn(r: seq<nat>, k: nat, p: nat, q: nat)
    requires k < |r| && q in r
    ensures q in With(r, k, p)
  {
    var j :| 0 <= j < |r| && r[j] == q;
    assert With(r, k, p)[if j <= k then j else j + 1] == q;
  }

  /** A chunk that is not binned is in no ring. */
  lemma NotInRing(m: Memory, bins: nat, a: Arena, rings: seq<seq<nat>>, p: nat, i: nat, l: nat)
    requires Tiling(a) && Below(bins, a) && Lists(m, bins, a, rings) && p in a.at && !a.at[p].status.Binned?
    requires 1 <= i < NBINS && l < |rings[i]|
    ensures rings[i][l] != p && Node(bins, a, rings[i][l])
  {
    RingNodes(m, bins, a, rings, i, l);
    assert ChunkOk(a, p);
  }

  lemma WithBin(m: Memory, bins: nat, a: Arena, i: nat, r: seq<nat>, k: nat, p: nat)
    requires Tiling(a) && i >= 1 && BinOk(m, bins, a, i, r) && k < |r| && p in a.at && !a.at[p].status.Binned?
      && SpacedFrom(r, p)
    ensures BinOk(Inserted(m, p, r[k], After(r, k)), bins, WithStatus(a, p, Binned(i)), i, With(r, k, p))
  {
    InsertNode(m, r, k, p);
    var r', a' := With(r, k, p), WithStatus(a, p, Binned(i));
    forall j, l | 0 <= j < |r'| && 0 <= l < |r'| && j != l
      ensures Spaced(r'[j], r'[l])
    {
      var j', l' := if j <= k then j else j - 1, if l <= k then l else l - 1;
      if j == k + 1 {
        assert Spaced(p, r[l']);
      } else if l == k + 1 {
        assert Spaced(p, r[j']);
      } else {
        PairsSpaced(r, j', l');
      }
    }
    forall j | 1 <= j < |r'|
      ensures Member(a', r'[j], i)
    {
      if j != k + 1 {
        assert Member(a, r[if j <= k then j else j - 1], i);
      }
    }
  }

  // ---------------------------------------------------------------- what link writes leave alone

  lemma UnlinkKeeps(m: Memory, bins: nat, a: Arena, bck: nat, fwd: nat)
    requires Tiling(a) && Below(bins, a) && Node(bins, a, bck) && Node(bins, a, fwd)
    ensures TagsKept(m, Unlinked(m, bck, fwd), a) && PayloadsKept(m, Unlinked(m, bck, fwd), a, NONE)
  {
    var m1 := SetBk(m, fwd, bck);
    NodeLink(m, bins, a, fwd, fwd + 12, bck);
    NodeLink(m1, bins, a, bck, bck + 8, fwd);
    KeptTwice(m, m1, Unlinked(m, bck, fwd), a);
  }

  lemma InsertKeeps(m: Memory, bins: nat, a: Arena, p: nat, bck: nat, fwd: nat)
    requires Tiling(a) && Below(bins, a) && Node(bins, a, p) && Node(bins, a, bck) && Node(bins, a, fwd)
    ensures TagsKept(m, Inserted(m, p, bck, fwd), a) && PayloadsKept(m, Inserted(m, p, bck, fwd), a, NONE)
  {
    var m1 := SetBk(m, p, bck);
    var m2 := SetFd(m1, p, fwd);
    var m3 := SetBk(m2, fwd, p);
    NodeLink(m, bins, a, p, p + 12, bck);
    NodeLink(m1, bins, a, p, p + 8, fwd);
    NodeLink(m2, bins, a, fwd, fwd + 12, p);
    NodeLink(m3, bins, a, bck, bck + 8, p);
    KeptTwice(m, m1, m2, a);
    KeptTwice(m, m2, m3, a);
    KeptTwice(m, m3, Inserted(m, p, bck, fwd), a);
  }

  /** Fastbins share no node with the rings. */
  lemma UnlinkFast(m: Memory, bins: nat, a: Arena, a': Arena, bck: nat, fwd: nat, fastbins: seq<nat>,
    fasts: seq<seq<nat>>)
    requires Tiling(a) && Below(bins, a) && RingNode(bins, a, bck) && RingNode(bins, a, fwd)
    requires FastLists(m, a, fastbins, fasts) && SameFast(a, a')
    ensures FastLists(Unlinked(m, bck, fwd), a', fastbins, fasts)
  {
    var m' := Unlinked(m, bck, fwd);
    forall p | p in a.at && a.at[p].status.Fast?
      ensures LinkKept(m, m', p)
    {
      assert ChunkOk(a, p);
      UnlinkOthers(m, bins, a, bck, fwd, p);
    }
    FastKept(m, m', a, a', fastbins, fasts);
  }

  lemma InsertFast(m: Memory, bins: nat, a: Arena, a': Arena, p: nat, bck: nat, fwd: nat, fastbins: seq<nat>,
    fasts: seq<seq<nat>>)
    requires Tiling(a) && Below(bins, a) && RingNode(bins, a, p) && RingNode(bins, a, bck) && RingNode(bins, a, fwd)
    requires FastLists(m, a, fastbins, fasts) && SameFast(a, a')
    ensures FastLists(Inserted(m, p, bck, fwd), a', fastbins, fasts)
  {
    var m' := Inserted(m, p, bck, fwd);
    forall q | q in a.at && a.at[q].status.Fast?
      ensures LinkKept(m, m', q)
    {
      assert ChunkOk(a, q);
      InsertOthers(m, bins, a, p, bck, fwd, q);
    }
    FastKept(m, m', a, a', fastbins, fasts);
  }

  /** A header or a chunk of a ring, or a loose one. */
  ghost predicate RingNode(bins: nat, a: Arena, n: nat) {
    Node(bins, a, n) && (n in a.at ==> !a.at[n].status.Fast?)
  }

  lemma FastKept(m: Memory, m': Memory, a: Arena, a': Arena, fastbins: seq<nat>, fasts: seq<seq<nat>>)
    requires FastLists(m, a, fastbins, fasts) && SameFast(a, a')
    requires forall p {:trigger LinkKept(m, m', p)} :: p in a.at && a.at[p].status.Fast? ==> LinkKept(m, m', p)
    ensures FastLists(m', a', fastbins, fasts)
  {
    forall j | 0 <= j < NFASTBINS
      ensures FastOk(m', a', j, fastbins[j], fasts[j])
    {
      var l := fasts[j];
      assert FastOk(m, a, j, fastbins[j], l);
      forall k | 0 <= k < |l|
        ensures FastMember(a', l[k], j) && Fd(m', l[k]) == Fd(m, l[k])
      {
        assert FastMember(a, l[k], j);
        assert LinkKept(m, m', l[k]);
      }
    }
  }

  // ---------------------------------------------------------------- entering and leaving a fastbin

  /** The first chunk of fastbin j leaves it, and the one it links to becomes the first. */
  lemma PopFast(m: Memory, a: Arena, fastbins: seq<nat>, fasts: seq<seq<nat>>, j: nat, s: Status)
    requires FastLists(m, a, fastbins, fasts) && j < NFASTBINS && fasts[j] != [] && !s.Fast?
    ensures fasts[j][0] == fastbins[j] && FastMember(a, fastbins[j], j)
    ensures FastLists(m, WithStatus(a, fastbins[j], s), fastbins[j := Fd(m, fastbins[j])], fasts[j := fasts[j][1..]])
  {
    var l := fasts[j];
    assert FastOk(m, a, j, fastbins[j], l) && FastMember(a, l[0], j);
    var a' := WithStatus(a, fastbins[j], s);
    var heads, fasts' := fastbins[j := Fd(m, l[0])], fasts[j := l[1..]];
    forall i | 0 <= i < NFASTBINS
      ensures FastOk(m, a', i, heads[i], fasts'[i])
    {
      assert FastOk(m, a, i, fastbins[i], fasts[i]);
      forall k | 0 <= k < |fasts'[i]|
        ensures FastMember(a', fasts'[i][k], i) && Fd(m, fasts'[i][k]) == FirstOf(fasts'[i], k + 1)
      {
        assert FastMember(a, fasts[i][if i == j then k + 1 else k], i);
        assert Fd(m, fasts[i][if i == j then k + 1 else k]) == FirstOf(fasts[i], if i == j then k + 2 else k + 1);
      }
    }
    forall q | q in a'.at && a'.at[q].status.Fast?
      ensures InFast(fasts', q, a'.at[q].status.index)
    {
      assert InFast(fasts, q, a.at[q].status.index);
      if a.at[q].status.index == j {
        var k :| 0 <= k < |l| && l[k] == q;
        assert l[1..][k - 1] == q;
      }
    }
  }

  /** A chunk in use becomes the first of its fastbin and links to the one that was. */
  lemma PushFast(m: Memory, a: Arena, fastbins: seq<nat>, fasts: seq<seq<nat>>, p: nat, j: nat)
    requires Tiling(a) && FastLists(m, a, fastbins, fasts) && p in a.at && a.at[p].status.InUse? && j <= 7
      && a.at[p].size == 8 * j + 16
    ensures FastLists(SetFd(m, p, fastbins[j]), WithStatus(a, p, Fast(j)), fastbins[j := p], fasts[j := [p] + fasts[j]])
  {
    var m', a' := SetFd(m, p, fastbins[j]), WithStatus(a, p, Fast(j));
    var heads, fasts' := fastbins[j := p], fasts[j := [p] + fasts[j]];
    assert ChunkOk(a, p);
    forall i | 0 <= i < NFASTBINS
      ensures FastOk(m', a', i, heads[i], fasts'[i])
    {
      assert FastOk(m, a, i, fastbins[i], fasts[i]);
      forall k | 0 <= k < |fasts'[i]|
        ensures FastMember(a', fasts'[i][k], i) && Fd(m', fasts'[i][k]) == FirstOf(fasts'[i], k + 1)
      {
        if i != j || k != 0 {
          var l := if i == j then k - 1 else k;
          assert FastMember(a, fasts[i][l], i);
          assert Fd(m, fasts[i][l]) == FirstOf(fasts[i], l + 1);
          assert Apart(a, p, fasts[i][l]) && Apart(a, fasts[i][l], p) && ChunkOk(a, fasts[i][l]);
        }
      }
      if i == j {
        forall k | 0 <= k < |fasts[i]|
          ensures fasts[i][k] != p
        {
          assert FastMember(a, fasts[i][k], i);
        }
      }
    }
    forall q | q in a'.at && a'.at[q].status.Fast?
      ensures InFast(fasts', q, a'.at[q].status.index)
    {
      if q != p {
        assert InFast(fasts, q, a.at[q].status.index);
        if a.at[q].status.index == j {
          var k :| 0 <= k < |fasts[j]| && fasts[j][k] == q;
          assert fasts'[j][k + 1] == q;
        }
      } else {
        assert fasts'[j][0] == p;
      }
    }
  }
}
