/**
 * The page frame allocator of kernel/freelist.c and the page tables of kernel/mapping.c, as one
 * object that owns physical memory and updates it in place.
 */
module PageTables {
  import opened Wrappers
  import opened PhysicalMemory

  ghost predicate HoldsData(role: map<nat, Role>, f: nat) {
    f in role && (role[f].Raw? || role[f].Page?)
  }

  /** Raw frames and user pages keep their contents. */
  ghost predicate KeepsContents(m: seq<nat>, m': seq<nat>, role: map<nat, Role>) {
    |m'| == |m| && forall x :: 0 <= x < |m| && HoldsData(role, x / ENTRIES) ==> m'[x] == m[x]
  }

  ghost function PoolFrames(lay: Layout): (s: seq<nat>)
    requires lay.first <= lay.last
    ensures |s| == lay.last - lay.first && forall k :: 0 <= k < |s| ==> s[k] == lay.first + k
  {
    seq(lay.last - lay.first, k requires 0 <= k => lay.first + k)
  }

  /** Frames linked upwards form the whole list exactly when the last one holds NULL. */
  lemma InitialChain(lay: Layout, m: seq<nat>, head: nat)
    requires IsMemory(lay, m) && head == PAGE * lay.first
    requires forall f :: lay.first <= f < lay.last - 1 ==> m[ENTRIES * f] == PAGE * (f + 1)
    ensures Chain(lay, m, head, PoolFrames(lay)) <==> m[ENTRIES * (lay.last - 1)] == 0
    ensures Chain(lay, m, head, PoolFrames(lay)) ==> Wf(lay, m, head, PoolFrames(lay), map[])
  {
    var free := PoolFrames(lay);
    forall k | 0 <= k < |free| - 1
      ensures Word(m, free[k], 0) == AddressOrNull(free, k + 1)
    {
      assert m[ENTRIES * free[k]] == PAGE * (free[k] + 1);
    }
    assert Word(m, free[|free| - 1], 0) == m[ENTRIES * (lay.last - 1)];
    forall f | lay.first <= f < lay.last
      ensures f in free
    {
      assert free[f - lay.first] == f;
    }
  }

  /** What initPageList makes of a pool of two frames, the last of which started with a 1. */
  function TwoPages(): seq<nat> {
    seq(3 * ENTRIES, x => if x == 2 * ENTRIES then 1 else if x == ENTRIES then 2 * PAGE else 0)
  }

  /** A pool of two frames whose last one starts with a word that is not NULL: the list does not end. */
  lemma EndlessList()
    ensures var lay, m := Layout(1, 3), TwoPages();
      IsMemory(lay, m) && !Chain(lay, m, PAGE, PoolFrames(lay))
  {
    InitialChain(Layout(1, 3), TwoPages(), PAGE);
  }

  /** What removing a page makes of a well-formed memory. */
  lemma Unmapped(lay: Layout, m: seq<nat>, head: nat, free: seq<nat>, role: map<nat, Role>, d: nat, va: nat)
    returns (role': map<nat, Role>)
    requires Wf(lay, m, head, free, role) && IsDirectory(role, d)
    requires FIRST_USER <= va / 0x40_0000 < ENTRIES && Word(m, d, va / 0x40_0000) != 0
    ensures ENTRIES * (Word(m, d, va / 0x40_0000) / PAGE + 1) <= |m|
    ensures var i, j := va / 0x40_0000, va / PAGE % ENTRIES;
      var m' := SetWord(m, Word(m, d, i) / PAGE, j, 0);
      && Wf(lay, m', head, free, role') && TranslatesTo(m, m', role, d, i, j, None) && KeepsContents(m, m', role)
      && (Translate(m, d, va).None? ==> m' == m && role' == role)
      && (Translate(m, d, va).Some? ==>
            var u := Translate(m, d, va).value / PAGE; u in role && role' == role[u := Raw])
  {
    var i, j, t := va / 0x40_0000, va / PAGE % ENTRIES, Word(m, d, va / 0x40_0000) / PAGE;
    if Translate(m, d, va).Some? {
      FullSlot(lay, m, role, d, va);
      UnlinkPageWf(lay, m, head, free, role, d, i, t, j);
      role' := role[Word(m, t, j) / PAGE := Raw];
    } else {
      EmptySlot(lay, m, role, d, va);
      NothingThere(lay, m, role, d, va);
      role' := role;
      assert SetWord(m, t, j, 0) == m;
    }
  }

  class Machine {
    const lay: Layout
    const words: array<nat>
    var freelist: nat
    ghost var free: seq<nat>
    ghost var role: map<nat, Role>

    ghost predicate Valid()
      reads this, words
    {
      Wf(lay, words[..], freelist, free, role)
    }

    /** Word k of a frame, as read from memory. */
    function Load(frame: nat, k: nat): (w: nat)
      reads words
      requires k < ENTRIES && ENTRIES * frame + k < words.Length
      ensures w == Word(words[..], frame, k)
    {
      words[ENTRIES * frame + k]
    }

    constructor (lay: Layout, words: array<nat>)
      ensures this.lay == lay && this.words == words && freelist == 0
    {
      this.lay, this.words, freelist, free, role := lay, words, 0, [], map[];
    }

    /**
     * initPageList over the pool: the list holds every frame of the pool exactly when the first word
     * of the last frame, which is never written, was already NULL.
     */
    method InitPageList()
      requires IsMemory(lay, words[..])
      modifies this, words
      ensures IsMemory(lay, words[..])
      ensures Chain(lay, words[..], freelist, PoolFrames(lay)) <==> old(words[ENTRIES * (lay.last - 1)]) == 0
      ensures old(words[ENTRIES * (lay.last - 1)]) == 0 ==> Valid() && free == PoolFrames(lay) && role == map[]
    {
      var first, last := lay.first, lay.last;
      ghost var m := words[..];
      var ptr, next := first, first + 1;
      while ptr < last - 1
        invariant first <= ptr <= last - 1 && next == ptr + 1
        invariant words.Length == ENTRIES * last
        invariant forall f :: first <= f < ptr ==> words[ENTRIES * f] == PAGE * (f + 1)
        invariant words[ENTRIES * (last - 1)] == m[ENTRIES * (last - 1)]
      {
        words[ENTRIES * ptr] := PAGE * next;
        next := next + 1;
        ptr := ptr + 1;
      }
      freelist := PAGE * first;
      free, role := PoolFrames(lay), map[];
      InitialChain(lay, words[..], PAGE * first);
    }

    /** page_alloc */
    method PageAlloc() returns (block: nat)
      requires Valid()
      modifies this, words
      ensures Valid()
      ensures old(free) == [] ==>
        block == 0 && free == [] && role == old(role) && words[..] == old(words[..])
      ensures old(free) != [] ==>
        && block == PAGE * old(free)[0] && free == old(free)[1..] && role == old(role)[old(free)[0] := Raw]
        && OnlyFrame(old(words[..]), words[..], old(free)[0]) && Blank(words[..], old(free)[0])
        && KeepsTranslations(old(words[..]), words[..], old(role))
    {
      if freelist == 0 {
        return 0;
      }
      ghost var m := words[..];
      var frame := freelist / PAGE;
      assert frame == free[0];
      block := freelist;
      freelist := words[ENTRIES * frame];
      for i := 0 to ENTRIES
        invariant freelist == m[ENTRIES * frame]
        invariant OnlyFrame(m, words[..], frame)
        invariant forall x :: ENTRIES * frame <= x < ENTRIES * frame + i ==> words[x] == 0
        invariant free == old(free) && role == old(role)
      {
        words[ENTRIES * frame + i] := 0;
      }
      AllocWf(lay, m, old(freelist), free, role, words[..]);
      role := role[frame := Raw];
      free := free[1..];
    }

    /** page_free of a frame that no table designates; freeing NULL does nothing. */
    method PageFree(block: nat)
      requires Valid() && block % PAGE == 0
      requires block == 0 || (block / PAGE in role && role[block / PAGE].Raw?)
      modifies this, words
      ensures Valid()
      ensures block == 0 ==> free == old(free) && role == old(role) && words[..] == old(words[..])
      ensures block != 0 ==>
        && free == [block / PAGE] + old(free) && role == old(role) - {block / PAGE}
        && words[..] == old(words[..])[ENTRIES * (block / PAGE) := old(freelist)]
        && KeepsTranslations(old(words[..]), words[..], old(role))
    {
      if block != 0 {
        var frame := block / PAGE;
        FreeWf(lay, words[..], freelist, free, role, frame);
        words[ENTRIES * frame] := freelist;
        freelist := block;
        free := [frame] + free;
        role := role - {frame};
        assert words[..] == old(words[..])[ENTRIES * frame := old(freelist)];
      }
    }

    /** get_physaddr, NULL when the page is not mapped. */
    method GetPhysaddr(virtualaddr: nat, pdir: nat) returns (r: nat)
      requires Valid() && IsDirectory(role, pdir) && virtualaddr < 0x1_0000_0000
      ensures r == match Translate(words[..], pdir, virtualaddr) case Some(a) => a case None => 0
    {
      var pdindex := virtualaddr / 0x40_0000;
      var ptindex := virtualaddr / PAGE % ENTRIES;
      TranslateIs(lay, words[..], role, pdir, virtualaddr);
      var pde := Load(pdir, pdindex);
      if pde == 0 {
        return 0;
      }
      var pte := Load(pde / PAGE, ptindex);
      if pte == 0 {
        return 0;
      }
      return pte / PAGE * PAGE + virtualaddr % PAGE;
    }

    /** map_page of a fresh frame at an unmapped user address, with a frame to spare if a table is missing. */
    method MapPage(pdir: nat, va: nat, pa: nat, flags: nat)
      requires Valid() && IsDirectory(role, pdir)
      requires FIRST_USER <= va / 0x40_0000 < ENTRIES && flags < PAGE
      requires pa / PAGE in role && role[pa / PAGE].Raw?
      requires Translate(words[..], pdir, va) == None
      requires free != [] || Word(words[..], pdir, va / 0x40_0000) != 0
      modifies this, words
      ensures Valid()
      ensures TranslatesTo(old(words[..]), words[..], old(role), pdir, va / 0x40_0000, va / PAGE % ENTRIES,
        Some(pa / PAGE))
      ensures KeepsContents(old(words[..]), words[..], old(role))
      ensures OnlyEntry(old(words[..]), words[..], pdir, va / 0x40_0000)
      ensures Word(words[..], pdir, va / 0x40_0000) != 0
      ensures MappedWords(old(words[..]), words[..], old(free), pdir, va / 0x40_0000, va / 0x1000 % 1024,
        pa / 0x1000 * 0x1000 + flags)
      ensures MappedRoles(old(words[..]), old(role), role, old(free), free, pdir, va / 0x40_0000, va / PAGE % ENTRIES,
        pa / PAGE)
    {
      var i, j := va / 0x40_0000, va / PAGE % ENTRIES;
      ghost var m, role0 := words[..], role;
      EnsureTable(pdir, i);
      ghost var m1, role1 := words[..], role;
      assert Translate(m1, pdir, va) == None;
      var ptable := Load(pdir, i) / PAGE;
      EmptySlot(lay, m1, role, pdir, va);
      assert pa / PAGE in role1;
      assert role1[pa / PAGE].Raw?;
      var w := pa / PAGE * PAGE + flags;
      assert w / PAGE == pa / PAGE;
      assert w != 0;
      ghost var free0 := old(free);
      EnterPage(pdir, i, ptable, j, w);
      TwoStores(m, m1, words[..], free0, pdir, i, ptable, j, w);
      ComposeTranslations(m, m1, words[..], role0, role1, pdir, i, j, Some(pa / PAGE));
      ComposeWrites(m, m1, words[..], role0, role1, ptable, pdir, i);
    }

    /** The allocation in map_page when the directory entry is empty. */
    method EnsureTable(pdir: nat, i: nat)
      requires Valid() && IsDirectory(role, pdir) && FIRST_USER <= i < ENTRIES
      requires free != [] || Word(words[..], pdir, i) != 0
      modifies this, words
      ensures Valid() && Word(words[..], pdir, i) != 0
      ensures old(Word(words[..], pdir, i)) != 0 ==>
        free == old(free) && role == old(role) && words[..] == old(words[..])
      ensures old(Word(words[..], pdir, i)) == 0 ==> LinkedWords(old(words[..]), words[..], pdir, i, old(free)[0])
      ensures old(Word(words[..], pdir, i)) == 0 ==>
        free == old(free)[1..] && role == old(role)[old(free)[0] := Table(pdir, i)]
      ensures Extends(old(role), role) && OnlyEntry(old(words[..]), words[..], pdir, i)
      ensures KeepsTranslations(old(words[..]), words[..], old(role))
      ensures KeepsContents(old(words[..]), words[..], old(role))
    {
      if Load(pdir, i) == 0 {
        LinkTable(pdir, i);
      }
    }

    /** The missing table of an empty directory entry, in map_page. */
    method LinkTable(pdir: nat, i: nat)
      requires Valid() && IsDirectory(role, pdir) && FIRST_USER <= i < ENTRIES
      requires Word(words[..], pdir, i) == 0 && free != []
      modifies this, words
      ensures Valid() && free == old(free)[1..] && role == old(role)[old(free)[0] := Table(pdir, i)]
      ensures Word(words[..], pdir, i) != 0 && LinkedWords(old(words[..]), words[..], pdir, i, old(free)[0])
      ensures Extends(old(role), role) && OnlyEntry(old(words[..]), words[..], pdir, i)
      ensures KeepsTranslations(old(words[..]), words[..], old(role))
      ensures KeepsContents(old(words[..]), words[..], old(role))
    {
      ghost var t, m, role0 := free[0], words[..], role;
      assert t in free && t !in role0 && pdir < lay.last;
      FrameAddress(t);
      var table := PageAlloc();
      assert table / PAGE == t && t in role && role[t].Raw?;
      ghost var m1 := words[..];
      AllocatedElsewhere(m, m1, role0, t, pdir, i);
      ClearedIs(m, m1, t);
      EnterTable(pdir, i, table / PAGE);
      LinkTableEffects(m, m1, words[..], role0, t, pdir, i);
    }

    /** The store into the directory, in map_page. */
    method EnterTable(pdir: nat, i: nat, t: nat)
      requires Valid() && IsDirectory(role, pdir) && FIRST_USER <= i < ENTRIES && pdir < lay.last
      requires Word(words[..], pdir, i) == 0 && t in role && role[t].Raw? && Blank(words[..], t)
      modifies this, words
      ensures Valid() && free == old(free) && role == old(role)[t := Table(pdir, i)]
      ensures words[..] == SetWord(old(words[..]), pdir, i, TableEntry(t))
      ensures KeepsTranslations(old(words[..]), words[..], old(role))
    {
      ghost var m := words[..];
      LinkTableWf(lay, m, freelist, free, role, pdir, i, t);
      words[ENTRIES * pdir + i] := TableEntry(t);
      assert words[..] == SetWord(m, pdir, i, TableEntry(t));
      role := role[t := Table(pdir, i)];
    }

    /** The store into the table, in map_page. */
    method EnterPage(ghost d: nat, ghost i: nat, t: nat, j: nat, w: nat)
      requires Valid() && IsTable(role, t, d, i) && j < ENTRIES && t < lay.last
      requires Word(words[..], t, j) == 0 && w != 0 && w / PAGE in role && role[w / PAGE].Raw?
      modifies this, words
      ensures Valid() && free == old(free) && role == old(role)[w / PAGE := Page(d, i, j)]
      ensures TranslatesTo(old(words[..]), words[..], old(role), d, i, j, Some(w / PAGE))
      ensures OnlyFrame(old(words[..]), words[..], t) && words[..] == SetWord(old(words[..]), t, j, w)
    {
      ghost var m := words[..];
      LinkPageWf(lay, m, freelist, free, role, d, i, t, j, w);
      words[ENTRIES * t + j] := w;
      assert words[..] == SetWord(m, t, j, w);
      role := role[w / PAGE := Page(d, i, j)];
    }

    /** unmap_page where the directory has a table; the frame of the page, if it was mapped, is not freed. */
    method UnmapPage(pdir: nat, va: nat)
      requires Valid() && IsDirectory(role, pdir)
      requires FIRST_USER <= va / 0x40_0000 < ENTRIES
      requires Word(words[..], pdir, va / 0x40_0000) != 0
      modifies this, words
      ensures Valid() && free == old(free)
      ensures TranslatesTo(old(words[..]), words[..], old(role), pdir, va / 0x40_0000, va / PAGE % ENTRIES, None)
      ensures KeepsContents(old(words[..]), words[..], old(role))
      ensures var k := 1024 * (old(Word(words[..], pdir, va / 0x40_0000)) / 0x1000) + va / 0x1000 % 1024;
        k < words.Length && words[..] == old(words[..])[k := 0]
      ensures old(Translate(words[..], pdir, va)).None? ==> words[..] == old(words[..]) && role == old(role)
      ensures old(Translate(words[..], pdir, va)).Some? ==>
        var u := old(Translate(words[..], pdir, va)).value / PAGE; u in old(role) && role == old(role)[u := Raw]
    {
      var i, j := va / 0x40_0000, va / PAGE % ENTRIES;
      ghost var m := words[..];
      var ptable := Load(pdir, i) / PAGE;
      role := Unmapped(lay, m, freelist, free, role, pdir, va);
      words[ENTRIES * ptable + j] := 0;
      assert words[..] == SetWord(m, ptable, j, 0);
    }

    /** create_pgdir: kernel entries copied from the boot directory, no user page. */
    method CreatePgdir(pgdir: array<nat>) returns (pdir: nat)
      requires Valid() && free != [] && pgdir.Length == ENTRIES && pgdir != words
      requires forall i :: 0 <= i < FIRST_USER ==> pgdir[i] / PAGE < lay.first
      modifies this, words
      ensures Valid() && pdir == old(free)[0] && free == old(free)[1..] && role == old(role)[pdir := Directory]
      ensures forall i: nat :: i < 64 ==> Word(words[..], pdir, i) == pgdir[i]
      ensures forall i: nat :: 64 <= i < 1024 ==> Word(words[..], pdir, i) == 0
      ensures forall va: nat :: va / 0x40_0000 >= FIRST_USER ==> Translate(words[..], pdir, va) == None
      ensures KeepsTranslations(old(words[..]), words[..], old(role))
      ensures OnlyFrame(old(words[..]), words[..], pdir)
    {
      ghost var m := words[..];
      ghost var role0 := role;
      assert free[0] in free;
      var block := PageAlloc();
      pdir := block / PAGE;
      ghost var m1 := words[..];
      for i := 0 to FIRST_USER
        invariant Valid() && free == old(free)[1..] && role == role0[pdir := Raw]
        invariant OnlyFrame(m1, words[..], pdir) && KeepsTranslations(m1, words[..], role)
        invariant forall k: nat :: k < i ==> Word(words[..], pdir, k) == pgdir[k]
      {
        StoreRaw(pdir, i, pgdir[i]);
      }
      for i := FIRST_USER to ENTRIES
        invariant Valid() && free == old(free)[1..] && role == role0[pdir := Raw]
        invariant OnlyFrame(m1, words[..], pdir) && KeepsTranslations(m1, words[..], role)
        invariant forall k: nat :: k < FIRST_USER ==> Word(words[..], pdir, k) == pgdir[k]
        invariant forall k: nat :: FIRST_USER <= k < i ==> Word(words[..], pdir, k) == 0
      {
        StoreRaw(pdir, i, 0);
      }
      NameDirectoryWf(lay, words[..], freelist, free, role, pdir);
      role := role[pdir := Directory];
      assert role == role0[pdir := Directory];
    }

    /** A store into a frame that is in no table. */
    method StoreRaw(frame: nat, k: nat, w: nat)
      requires Valid() && HoldsData(role, frame) && k < ENTRIES && frame < lay.last
      modifies words
      ensures Valid() && words[..] == SetWord(old(words[..]), frame, k, w)
      ensures KeepsTranslations(old(words[..]), words[..], role)
    {
      ghost var m := words[..];
      words[ENTRIES * frame + k] := w;
      assert words[..] == SetWord(m, frame, k, w);
      WritePageWf(lay, m, freelist, free, role, words[..], frame);
    }

    /** libere_pages: exactly the directory, its tables and its pages go back to the list. */
    method LiberePages(pdir: nat)
      requires Valid() && IsDirectory(role, pdir)
      modifies this, words
      ensures Valid()
      ensures forall f :: f in role <==> f in old(role) && !Belongs(old(role)[f], f, pdir)
      ensures forall f :: f in role ==> role[f] == old(role)[f]
      ensures KeepsTranslations(old(words[..]), words[..], role)
      ensures forall x :: 0 <= x < words.Length ==>
        words[x] == old(words[x]) || (x / ENTRIES in old(role) && Belongs(old(role)[x / ENTRIES], x / ENTRIES, pdir))
    {
      ghost var m0, role0, head0, free0 := words[..], role, freelist, free;
      OrphanedWf(lay, m0, head0, free0, role0, pdir);
      role := Orphaned(role0, pdir);
      ghost var kept := role;
      forall f | f in role0
        ensures !Passed(role0[f], pdir, FIRST_USER, 0)
      {
        WalkEnds(lay, m0, role0, pdir, f);
      }
      for i := FIRST_USER to ENTRIES
        invariant Valid() && Walk(m0, role0, pdir, i, 0, words[..], role)
        invariant KeepsTranslations(m0, words[..], kept)
      {
        FreeEntry(pdir, i, m0, head0, free0, role0);
      }
      forall f | f in role0
        ensures Passed(role0[f], pdir, ENTRIES, 0) <==> Belongs(role0[f], f, pdir) && f != pdir
      {
        WalkEnds(lay, m0, role0, pdir, f);
      }
      assert pdir in role && role[pdir].Raw?;
      FrameAddress(pdir);
      PageFree(PAGE * pdir);
    }

    /** The body of the outer loop of libere_pages. */
    method FreeEntry(pdir: nat, i: nat, ghost m0: seq<nat>, ghost head0: nat, ghost free0: seq<nat>,
      ghost role0: map<nat, Role>)
      requires Valid() && Wf(lay, m0, head0, free0, role0) && IsDirectory(role0, pdir) && FIRST_USER <= i < ENTRIES
      requires Walk(m0, role0, pdir, i, 0, words[..], role)
      modifies this, words
      ensures Valid() && Walk(m0, role0, pdir, i + 1, 0, words[..], role)
      ensures KeepsTranslations(old(words[..]), words[..], Orphaned(role0, pdir))
    {
      ghost var m := words[..];
      forall f | f in role0
        ensures Word(m0, pdir, i) == 0 ==> (Passed(role0[f], pdir, i + 1, 0) <==> Passed(role0[f], pdir, i, 0))
      {
        WalkEntry(lay, m0, role0, pdir, i, f);
      }
      WalkEntry(lay, m0, role0, pdir, i, pdir);
      WalkWord(m0, role0, pdir, i, 0, m, role, pdir, i);
      var pde := Load(pdir, i);
      assert pde == Word(m0, pdir, i);
      if pde != 0 {
        var pgtable := pde / PAGE;
        for j := 0 to ENTRIES
          invariant Valid() && Walk(m0, role0, pdir, i, j, words[..], role)
          invariant KeepsTranslations(m, words[..], Orphaned(role0, pdir))
        {
          FreeSlot(pdir, i, pgtable, j, m0, head0, free0, role0);
        }
        FreeTable(pdir, i, pgtable, m0, head0, free0, role0);
      } else {
        assert PassesNone(role0, pdir, i, 0, i + 1, 0);
      }
    }

    /** The body of the inner loop of libere_pages. */
    method FreeSlot(ghost d: nat, ghost i: nat, pgtable: nat, j: nat,
      ghost m0: seq<nat>, ghost head0: nat, ghost free0: seq<nat>, ghost role0: map<nat, Role>)
      requires Valid() && Wf(lay, m0, head0, free0, role0) && IsDirectory(role0, d)
      requires FIRST_USER <= i < ENTRIES && j < ENTRIES
      requires Word(m0, d, i) != 0 && pgtable == Word(m0, d, i) / PAGE && IsTable(role0, pgtable, d, i)
      requires Walk(m0, role0, d, i, j, words[..], role)
      modifies this, words
      ensures Valid() && Walk(m0, role0, d, i, j + 1, words[..], role)
      ensures KeepsTranslations(old(words[..]), words[..], Orphaned(role0, d))
    {
      ghost var m, role1 := words[..], role;
      WalkWord(m0, role0, d, i, j, m, role, pgtable, j);
      var pte := Load(pgtable, j);
      assert pte == Word(m0, pgtable, j);
      var u := pte / PAGE;
      forall f | f in role0
        ensures Passed(role0[f], d, i, j + 1) <==> Passed(role0[f], d, i, j) || (pte != 0 && f == u)
        ensures pte != 0 ==> u in role0 && role0[u] == Page(d, i, j)
      {
        WalkSlot(lay, m0, role0, d, i, j, f);
      }
      if pte != 0 {
        WalkSlot(lay, m0, role0, d, i, j, d);
        assert PassesOnly(role0, d, i, j, i, j + 1, u);
        WalkWord(m0, role0, d, i, j, m, role, u, 0);
        FreeWalked(u, d, i, j, i, j + 1, m0, role0);
      } else {
        assert PassesNone(role0, d, i, j, i, j + 1);
      }
    }

    /** The table of an entry is freed after the pages it maps. */
    method FreeTable(ghost d: nat, ghost i: nat, pgtable: nat,
      ghost m0: seq<nat>, ghost head0: nat, ghost free0: seq<nat>, ghost role0: map<nat, Role>)
      requires Valid() && Wf(lay, m0, head0, free0, role0) && IsDirectory(role0, d) && FIRST_USER <= i < ENTRIES
      requires Word(m0, d, i) != 0 && pgtable == Word(m0, d, i) / PAGE
      requires Walk(m0, role0, d, i, ENTRIES, words[..], role)
      modifies this, words
      ensures Valid() && Walk(m0, role0, d, i + 1, 0, words[..], role)
      ensures KeepsTranslations(old(words[..]), words[..], Orphaned(role0, d))
    {
      forall f | f in role0
        ensures Passed(role0[f], d, i + 1, 0) <==> Passed(role0[f], d, i, ENTRIES) || f == pgtable
      {
        WalkEntry(lay, m0, role0, d, i, f);
      }
      WalkEntry(lay, m0, role0, d, i, d);
      assert PassesOnly(role0, d, i, ENTRIES, i + 1, 0, pgtable);
      WalkWord(m0, role0, d, i, ENTRIES, words[..], role, pgtable, 0);
      FreeWalked(pgtable, d, i, ENTRIES, i + 1, 0, m0, role0);
    }

    /** page_free of the frame that the walk passes next. */
    method FreeWalked(u: nat, ghost d: nat, ghost i: nat, ghost j: nat, ghost i': nat, ghost j': nat,
      ghost m0: seq<nat>, ghost role0: map<nat, Role>)
      requires Valid() && Walk(m0, role0, d, i, j, words[..], role)
      requires u in role0 && u in role && role[u].Raw? && PassesOnly(role0, d, i, j, i', j', u)
      modifies this, words
      ensures Valid() && Walk(m0, role0, d, i', j', words[..], role)
      ensures KeepsTranslations(old(words[..]), words[..], Orphaned(role0, d))
    {
      ghost var m, role1, head1 := words[..], role, freelist;
      FrameAddress(u);
      PageFree(PAGE * u);
      WalkFrees(m0, role0, d, i, j, i', j', m, role1, u, head1);
      WalkDirectories(m0, role0, d, i, j, m, role1, words[..]);
    }

    /** unmap_page undoes map_page: every address of every directory translates as before. */
    method MapThenUnmap(pdir: nat, va: nat, pa: nat, flags: nat)
      requires Valid() && IsDirectory(role, pdir)
      requires FIRST_USER <= va / 0x40_0000 < ENTRIES && flags < PAGE
      requires pa / PAGE in role && role[pa / PAGE].Raw?
      requires Translate(words[..], pdir, va) == None
      requires free != [] || Word(words[..], pdir, va / 0x40_0000) != 0
      modifies this, words
      ensures Valid() && pa / PAGE in role && role[pa / PAGE] == Raw
      ensures KeepsTranslations(old(words[..]), words[..], old(role))
    {
      ghost var m, role0 := words[..], role;
      MapPage(pdir, va, pa, flags);
      ghost var m1, role1 := words[..], role;
      ghost var u := pa / PAGE;
      MappedNow(m, m1, role0, pdir, va, u);
      UnmapPage(pdir, va);
      assert role == role1[u := Raw];
      assert forall f :: IsDirectory(role0, f) ==> IsDirectory(role1, f);
      UndoTranslations(m, m1, words[..], role0, role1, pdir, va, pa / PAGE);
    }
  }

  /** Every frame keeps its role; more frames may have one. */
  ghost predicate Extends(role: map<nat, Role>, role': map<nat, Role>) {
    forall f :: f in role ==> f in role' && role'[f] == role[f]
  }

  lemma ComposeContents(m: seq<nat>, m1: seq<nat>, m2: seq<nat>, role: map<nat, Role>, t: nat, d: nat)
    requires OnlyFrame(m, m1, t) && OnlyFrame(m1, m2, d)
    requires !HoldsData(role, t) && !HoldsData(role, d)
    ensures KeepsContents(m, m2, role)
  {
  }

  lemma AllocatedElsewhere(m: seq<nat>, m1: seq<nat>, role: map<nat, Role>, t: nat, d: nat, i: nat)
    requires OnlyFrame(m, m1, t) && t !in role && IsDirectory(role, d) && i < ENTRIES && ENTRIES * d + i < |m|
    ensures IsDirectory(role[t := Raw], d) && Word(m1, d, i) == Word(m, d, i)
  {
    OtherFrame(m, m1, t, d, i);
  }

  /** What is left alone while an empty directory entry gets its table. */
  lemma LinkTableEffects(m: seq<nat>, m1: seq<nat>, m2: seq<nat>, role: map<nat, Role>, t: nat, d: nat, i: nat)
    requires OnlyFrame(m, m1, t) && t !in role && IsDirectory(role, d) && i < ENTRIES && ENTRIES * d + i < |m1|
    requires m2 == SetWord(m1, d, i, TableEntry(t))
    requires KeepsTranslations(m, m1, role) && KeepsTranslations(m1, m2, role[t := Raw])
    ensures Extends(role, role[t := Raw][t := Table(d, i)]) && OnlyEntry(m, m2, d, i)
    ensures role[t := Raw][t := Table(d, i)] == role[t := Table(d, i)]
    ensures KeepsTranslations(m, m2, role) && KeepsContents(m, m2, role)
  {
    OtherFrameAll(m, m1, t, d);
    ComposeContents(m, m1, m2, role, t, d);
    KeepsCompose(m, m1, m2, role, role[t := Raw]);
  }

  lemma ComposeWrites(m: seq<nat>, m1: seq<nat>, m2: seq<nat>, role: map<nat, Role>, role1: map<nat, Role>, t: nat,
    d: nat, i: nat)
    requires KeepsContents(m, m1, role) && OnlyEntry(m, m1, d, i) && OnlyFrame(m1, m2, t)
    requires Extends(role, role1) && IsTable(role1, t, d, i) && IsDirectory(role1, d)
    ensures KeepsContents(m, m2, role) && OnlyEntry(m, m2, d, i)
    ensures i < ENTRIES && ENTRIES * d + i < |m| ==> Word(m2, d, i) == Word(m1, d, i)
  {
    OtherFrameAll(m1, m2, t, d);
  }

  /** An empty directory entry designates the cleared frame t, with the flags present, writable and user. */
  ghost predicate LinkedWords(m: seq<nat>, m': seq<nat>, d: nat, i: nat, t: nat) {
    1024 * d + i < |m| && m' == Cleared(m, t)[1024 * d + i := 0x1000 * t + 7]
  }

  /** Every word after map_page: that of the slot, and when the table was missing its entry and its zeroes. */
  ghost predicate MappedWords(m: seq<nat>, m': seq<nat>, free: seq<nat>, d: nat, i: nat, j: nat, w: nat) {
    && 1024 * d + i < |m|
    && if m[1024 * d + i] != 0
       then 1024 * (m[1024 * d + i] / 0x1000) + j < |m| && m' == m[1024 * (m[1024 * d + i] / 0x1000) + j := w]
       else free != [] && 1024 * free[0] + j < |m|
            && m' == Cleared(m, free[0])[1024 * d + i := 0x1000 * free[0] + 7][1024 * free[0] + j := w]
  }

  /** The frame of the page, and that of a table that was missing, get their roles; only the latter was free. */
  ghost predicate MappedRoles(m: seq<nat>, role: map<nat, Role>, role': map<nat, Role>, free: seq<nat>, free': seq<nat>,
    d: nat, i: nat, j: nat, u: nat)
  {
    && 1024 * d + i < |m|
    && if m[1024 * d + i] != 0 then free' == free && role' == role[u := Page(d, i, j)]
       else free != [] && free' == free[1..] && role' == role[free[0] := Table(d, i)][u := Page(d, i, j)]
  }

  lemma TwoStores(m: seq<nat>, m1: seq<nat>, m2: seq<nat>, free: seq<nat>, d: nat, i: nat, t: nat, j: nat, w: nat)
    requires i < ENTRIES && j < ENTRIES && ENTRIES * d + i < |m| == |m1| && ENTRIES * t + j < |m1|
    requires t == Word(m1, d, i) / PAGE && m2 == SetWord(m1, t, j, w)
    requires Word(m, d, i) != 0 ==> m1 == m
    requires Word(m, d, i) == 0 ==> free != [] && LinkedWords(m, m1, d, i, free[0])
    ensures MappedWords(m, m2, free, d, i, j, w)
  {
  }

  /** In frame d only word i may have changed. */
  ghost predicate OnlyEntry(m: seq<nat>, m': seq<nat>, d: nat, i: nat) {
    |m'| == |m| && forall k: nat :: k < ENTRIES && k != i && ENTRIES * d + k < |m| ==> Word(m', d, k) == Word(m, d, k)
  }

  lemma OtherFrameAll(m: seq<nat>, m': seq<nat>, f: nat, g: nat)
    requires OnlyFrame(m, m', f) && f != g
    ensures forall k: nat :: k < ENTRIES && ENTRIES * g + k < |m| ==> Word(m', g, k) == Word(m, g, k)
  {
    forall k: nat | k < ENTRIES && ENTRIES * g + k < |m|
      ensures Word(m', g, k) == Word(m, g, k)
    {
      OtherFrame(m, m', f, g, k);
    }
  }
}
