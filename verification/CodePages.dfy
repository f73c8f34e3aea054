/**
 * copier_code of kernel/process.c: a program image is copied into fresh user pages mapped from
 * 0x40000000 on. Memory words are little-endian, so bytes are digits in base 256.
 */
module CodePages {
  import opened Wrappers
  import opened Bytes
  import opened PhysicalMemory
  import opened PageTables

  const CODE_BASE: nat := 0x4000_0000
  const CODE_ENTRY: nat := 256          // CODE_BASE >> 22

  function ByteOf(w: nat, k: nat): nat {
    if k == 0 then w % 256 else ByteOf(w / 256, k - 1)
  }

  function PutByte(w: nat, k: nat, b: nat): nat {
    if k == 0 then w / 256 * 256 + b else PutByte(w / 256, k - 1, b) * 256 + w % 256
  }

  /** Storing a byte changes that byte of the word and no other. */
  lemma {:induction false} PutByteGet(w: nat, k: nat, b: nat, l: nat)
    requires b < 256
    ensures ByteOf(PutByte(w, k, b), l) == if l == k then b else ByteOf(w, l)
  {
    if k == 0 {
      assert (w / 256 * 256 + b) / 256 == w / 256;
    } else {
      var p := PutByte(w / 256, k - 1, b);
      assert (p * 256 + w % 256) / 256 == p;
      if l != 0 {
        PutByteGet(w / 256, k - 1, b, l - 1);
      }
    }
  }

  /** The byte at offset o of a frame. */
  function ByteAt(m: seq<nat>, frame: nat, o: nat): nat
    requires o < PAGE && ENTRIES * (frame + 1) <= |m|
  {
    ByteOf(Word(m, frame, o / 4), o % 4)
  }

  /** Byte x of the image as loaded: the rest of the last page is zero. */
  function ImageByte(code: seq<nat>, x: nat): nat {
    if x < |code| then code[x] else 0
  }

  ghost predicate PageHolds(m: seq<nat>, frame: nat, code: seq<nat>, start: nat)
    requires ENTRIES * (frame + 1) <= |m|
  {
    forall o: nat :: o < PAGE ==> ByteAt(m, frame, o) == ImageByte(code, start + o)
  }

  lemma SamePageHolds(m: seq<nat>, m': seq<nat>, frame: nat, code: seq<nat>, start: nat)
    requires ENTRIES * (frame + 1) <= |m| == |m'| && PageHolds(m, frame, code, start)
    requires forall x :: 0 <= x < |m| && x / ENTRIES == frame ==> m'[x] == m[x]
    ensures PageHolds(m', frame, code, start)
  {
    forall o: nat | o < PAGE
      ensures ByteAt(m', frame, o) == ImageByte(code, start + o)
    {
      assert (ENTRIES * frame + o / 4) / ENTRIES == frame;
      assert ByteAt(m, frame, o) == ImageByte(code, start + o);
    }
  }

  lemma BlankBytes(m: seq<nat>, frame: nat, o: nat)
    requires Blank(m, frame) && ENTRIES * (frame + 1) <= |m| && o < PAGE
    ensures ByteAt(m, frame, o) == 0
  {
    BlankWord(m, frame, o / 4);
    ZeroBytes(o % 4);
  }

  lemma {:induction false} ZeroBytes(k: nat)
    ensures ByteOf(0, k) == 0
  {
    if k != 0 {
      ZeroBytes(k - 1);
    }
  }

  /** bloc[o] = b */
  method StoreByte(mem: Machine, frame: nat, o: nat, b: nat)
    requires mem.Valid() && HoldsData(mem.role, frame) && frame < mem.lay.last && o < PAGE && b < 256
    modifies mem.words
    ensures mem.Valid() && OnlyFrame(old(mem.words[..]), mem.words[..], frame)
    ensures KeepsTranslations(old(mem.words[..]), mem.words[..], mem.role)
    ensures forall p: nat :: p < PAGE ==>
      ByteAt(mem.words[..], frame, p) == if p == o then b else old(ByteAt(mem.words[..], frame, p))
  {
    ghost var m := mem.words[..];
    var w := mem.Load(frame, o / 4);
    mem.StoreRaw(frame, o / 4, PutByte(w, o % 4, b));
    ghost var m' := SetWord(m, frame, o / 4, PutByte(w, o % 4, b));
    assert mem.words[..] == m';
    OneByteStored(m, m', frame, o, b);
  }

  lemma OneByteStored(m: seq<nat>, m': seq<nat>, frame: nat, o: nat, b: nat)
    requires ENTRIES * (frame + 1) <= |m| && o < PAGE && b < 256
    requires m' == SetWord(m, frame, o / 4, PutByte(Word(m, frame, o / 4), o % 4, b))
    ensures forall p: nat :: p < PAGE ==> ByteAt(m', frame, p) == if p == o then b else ByteAt(m, frame, p)
  {
    var w := Word(m, frame, o / 4);
    forall p: nat | p < PAGE
      ensures ByteAt(m', frame, p) == if p == o then b else ByteAt(m, frame, p)
    {
      PutByteGet(w, o % 4, b, p % 4);
      assert p == o <==> p / 4 == o / 4 && p % 4 == o % 4;
    }
  }

  /** The bytes of the image from start on, at most a page of them: the rest of the page is zero. */
  ghost predicate PagePart(code: seq<nat>, start: nat, bytes: seq<nat>) {
    && |bytes| <= PAGE && AllBytes(bytes)
    && forall o: nat :: o < PAGE ==> ImageByte(code, start + o) == ImageByte(bytes, o)
  }

  /** The inner copy loop: the first |bytes| bytes of a blank data frame. */
  method FillPage(mem: Machine, frame: nat, ghost code: seq<nat>, ghost start: nat, bytes: seq<nat>)
    requires mem.Valid() && HoldsData(mem.role, frame) && frame < mem.lay.last && Blank(mem.words[..], frame)
    requires PagePart(code, start, bytes)
    modifies mem.words
    ensures mem.Valid() && OnlyFrame(old(mem.words[..]), mem.words[..], frame)
    ensures KeepsTranslations(old(mem.words[..]), mem.words[..], mem.role)
    ensures ENTRIES * (frame + 1) <= mem.words.Length && PageHolds(mem.words[..], frame, code, start)
  {
    ghost var m := mem.words[..];
    forall o: nat | o < PAGE
      ensures ByteAt(m, frame, o) == 0
    {
      BlankBytes(m, frame, o);
    }
    for j := 0 to |bytes|
      invariant mem.Valid() && OnlyFrame(m, mem.words[..], frame)
      invariant KeepsTranslations(m, mem.words[..], mem.role)
      invariant forall o: nat :: o < PAGE ==> ByteAt(mem.words[..], frame, o) == if o < j then bytes[o] else 0
    {
      ghost var m1 := mem.words[..];
      StoreByte(mem, frame, j, bytes[j]);
      KeepsCompose(m, m1, mem.words[..], mem.role, mem.role);
    }
    forall o: nat | o < PAGE
      ensures ByteAt(mem.words[..], frame, o) == ImageByte(code, start + o)
    {
      assert ImageByte(code, start + o) == ImageByte(bytes, o);
    }
  }

  /** Virtual address of byte o of code page q. */
  function CodeVa(q: nat, o: nat): nat {
    CODE_BASE + PAGE * q + o
  }

  lemma VaParts(q: nat, o: nat)
    requires o < PAGE
    ensures var va := CodeVa(q, o);
      va / 0x40_0000 == CODE_ENTRY + q / ENTRIES && va / PAGE % ENTRIES == q % ENTRIES && va % PAGE == o
  {
    var va := CodeVa(q, o);
    assert va / PAGE == 0x4_0000 + q;
    assert (0x4_0000 + q) / ENTRIES == CODE_ENTRY + q / ENTRIES;
    assert va / 0x40_0000 == va / PAGE / ENTRIES;
  }

  /** The frame u is mapped at entry i, slot j of directory d; existing frames keep role and contents. */
  ghost predicate FreshlyMapped(m0: seq<nat>, role0: map<nat, Role>, m: seq<nat>, role: map<nat, Role>, d: nat,
    i: nat, j: nat, u: nat)
  {
    && Extends(role0, role) && u !in role0 && u in role && role[u] == Page(d, i, j)
    && (forall f :: f in role && f !in role0 && f != u ==> role[f] == Table(d, i))
    && TranslatesTo(m0, m, role0, d, i, j, Some(u))
    && KeepsContents(m0, m, role0) && OnlyEntry(m0, m, d, i)
    && OnlySlot(m0, m, role0, d, i, j) && UserPage(m0, m, role, d, i, j, u)
  }

  /** In the tables there were only slot j of the table of entry i may have changed. */
  ghost predicate OnlySlot(m0: seq<nat>, m: seq<nat>, role0: map<nat, Role>, d: nat, i: nat, j: nat) {
    |m| == |m0| && forall x :: 0 <= x < |m| && x / 1024 in role0 && role0[x / 1024].Table? ==>
      m[x] == m0[x] || (role0[x / 1024] == Table(d, i) && x % 1024 == j)
  }

  /** The entry of the table is as it was, or has the flags 7; that of the page designates u with the flags 7. */
  ghost predicate UserPage(m0: seq<nat>, m: seq<nat>, role: map<nat, Role>, d: nat, i: nat, j: nat, u: nat) {
    && 1024 * d + i < |m| && |m0| == |m|
    && var e := m[1024 * d + i];
       && (if m0[1024 * d + i] == 0 then e % 0x1000 == 7 else e == m0[1024 * d + i])
       && IsTable(role, e / 0x1000, d, i)
       && 1024 * (e / 0x1000) + j < |m| && m[1024 * (e / 0x1000) + j] == 0x1000 * u + 7
  }

  lemma MapFreshSlot(lay: Layout, m0: seq<nat>, m1: seq<nat>, m2: seq<nat>, role0: map<nat, Role>, free1: seq<nat>,
    u: nat, d: nat, i: nat, j: nat)
    requires Structure(lay, m0, role0) && IsDirectory(role0, d) && u !in role0 && d < lay.last && m1 == Cleared(m0, u)
    requires FIRST_USER <= i < 1024 && j < 1024
    requires MappedWords(m1, m2, free1, d, i, j, 0x1000 * u + 7) && (free1 != [] ==> free1[0] !in role0)
    ensures OnlySlot(m0, m2, role0, d, i, j)
  {
    assert Placed(lay, m0, role0, d) && EntryOk(lay, m0, role0, d, i);
    assert (1024 * d + i) / 1024 == d && m1[1024 * d + i] == m0[1024 * d + i];
  }

  lemma MapFreshUser(m0: seq<nat>, m1: seq<nat>, m2: seq<nat>, role1: map<nat, Role>, role2: map<nat, Role>,
    free1: seq<nat>, free2: seq<nat>, u: nat, d: nat, i: nat, j: nat)
    requires u != d && m1 == Cleared(m0, u) && i < 1024 && j < 1024
    requires MappedWords(m1, m2, free1, d, i, j, 0x1000 * u + 7) && (free1 != [] ==> free1[0] != u && free1[0] != d)
    requires m1[1024 * d + i] != 0 ==> IsTable(role1, m1[1024 * d + i] / 0x1000, d, i) && m1[1024 * d + i] / 0x1000 != u
    requires MappedRoles(m1, role1, role2, free1, free2, d, i, j, u)
    requires m1[1024 * d + i] / 0x1000 != d || m1[1024 * d + i] == 0
    ensures UserPage(m0, m2, role2, d, i, j, u)
  {
    assert (1024 * d + i) / 1024 == d && m1[1024 * d + i] == m0[1024 * d + i];
  }

  /** What map_page sees of a heap of frames in order: neither the frame nor a table to come is in use. */
  lemma FramesApart(lay: Layout, m0: seq<nat>, head1: nat, m1: seq<nat>, free1: seq<nat>, role0: map<nat, Role>,
    role1: map<nat, Role>, u: nat, d: nat, i: nat)
    requires Structure(lay, m0, role0) && IsDirectory(role0, d) && u !in role0 && role1 == role0[u := Raw]
    requires Wf(lay, m1, head1, free1, role1) && FIRST_USER <= i < 1024
    ensures u != d && d < lay.last && 1024 * d + i < |m1|
    ensures free1 != [] ==> free1[0] !in role0 && free1[0] != u && free1[0] != d
    ensures var e := m1[1024 * d + i];
      e != 0 ==> IsTable(role1, e / 0x1000, d, i) && e / 0x1000 != u && e / 0x1000 != d
  {
    assert Placed(lay, m1, role1, d) && EntryOk(lay, m1, role1, d, i);
    assert free1 != [] ==> free1[0] in free1;
  }

  /** A fresh frame is allocated and mapped at va. */
  method MapFresh(mem: Machine, pgdir: nat, va: nat, ghost i: nat, ghost j: nat) returns (frame: nat)
    requires mem.Valid() && IsDirectory(mem.role, pgdir)
    requires i == va / 0x40_0000 && j == va / PAGE % ENTRIES && FIRST_USER <= i < ENTRIES
    requires Translate(mem.words[..], pgdir, va) == None
    requires |mem.free| > if Word(mem.words[..], pgdir, i) == 0 then 1 else 0
    modifies mem, mem.words
    ensures mem.Valid() && frame < mem.lay.last && Blank(mem.words[..], frame)
    ensures FreshlyMapped(old(mem.words[..]), old(mem.role), mem.words[..], mem.role, pgdir, i, j, frame)
    ensures Word(mem.words[..], pgdir, i) != 0
    ensures |mem.free| == old(|mem.free| - 1 - if Word(mem.words[..], pgdir, i) == 0 then 1 else 0)
  {
    ghost var m0, role0 := mem.words[..], mem.role;
    ghost var u := mem.free[0];
    FrameAddress(u);
    assert u in mem.free && u !in role0 && pgdir < mem.lay.last;
    var bloc := mem.PageAlloc();
    frame := bloc / PAGE;
    ghost var m1, role1, free1 := mem.words[..], mem.role, mem.free;
    AllocatedElsewhere(m0, m1, role0, u, pgdir, i);
    ClearedIs(m0, m1, u);
    FramesApart(mem.lay, m0, mem.freelist, m1, free1, role0, role1, u, pgdir, i);
    MapRaw(mem, pgdir, va, bloc, i, j, u);
    StillBlank(m1, mem.words[..], role1, u);
    MapFreshEffects(m0, m1, mem.words[..], role0, u, pgdir, i, j);
    MapFreshSlot(mem.lay, m0, m1, mem.words[..], role0, free1, u, pgdir, i, j);
    MapFreshUser(m0, m1, mem.words[..], role1, mem.role, free1, mem.free, u, pgdir, i, j);
  }

  /** map_page with the flags PAGE_TABLE_USR_RW. */
  method MapRaw(mem: Machine, pgdir: nat, va: nat, bloc: nat, ghost i: nat, ghost j: nat, ghost u: nat)
    requires mem.Valid() && IsDirectory(mem.role, pgdir)
    requires i == va / 0x40_0000 && j == va / PAGE % ENTRIES && FIRST_USER <= i < ENTRIES && u == bloc / PAGE
    requires u in mem.role && mem.role[u].Raw? && Translate(mem.words[..], pgdir, va) == None
    requires mem.free != [] || Word(mem.words[..], pgdir, i) != 0
    modifies mem, mem.words
    ensures mem.Valid() && Word(mem.words[..], pgdir, i) != 0
    ensures TranslatesTo(old(mem.words[..]), mem.words[..], old(mem.role), pgdir, i, j, Some(u))
    ensures KeepsContents(old(mem.words[..]), mem.words[..], old(mem.role))
    ensures OnlyEntry(old(mem.words[..]), mem.words[..], pgdir, i)
    ensures MappedWords(old(mem.words[..]), mem.words[..], old(mem.free), pgdir, i, j, 0x1000 * u + 7)
    ensures MappedRoles(old(mem.words[..]), old(mem.role), mem.role, old(mem.free), mem.free, pgdir, i, j, u)
  {
    assert bloc / 0x1000 * 0x1000 + 7 == 0x1000 * u + 7;
    mem.MapPage(pgdir, va, bloc, USR_FLAGS);
  }

  lemma StillBlank(m: seq<nat>, m': seq<nat>, role: map<nat, Role>, f: nat)
    requires KeepsContents(m, m', role) && HoldsData(role, f) && Blank(m, f)
    ensures Blank(m', f)
  {
  }

  lemma MapFreshEffects(m0: seq<nat>, m1: seq<nat>, m2: seq<nat>, role0: map<nat, Role>, u: nat, d: nat, i: nat, j: nat)
    requires OnlyFrame(m0, m1, u) && u !in role0 && IsDirectory(role0, d)
    requires KeepsTranslations(m0, m1, role0)
    requires TranslatesTo(m1, m2, role0[u := Raw], d, i, j, Some(u)) && KeepsContents(m1, m2, role0[u := Raw])
    requires OnlyEntry(m1, m2, d, i)
    ensures TranslatesTo(m0, m2, role0, d, i, j, Some(u)) && KeepsContents(m0, m2, role0) && OnlyEntry(m0, m2, d, i)
  {
    ComposeTranslations(m0, m1, m2, role0, role0[u := Raw], d, i, j, Some(u));
    OtherFrameAll(m0, m1, u, d);
  }

  /** One page of the image: allocate, map, copy. */
  method CopyPage(mem: Machine, pgdir: nat, q: nat, ghost i: nat, ghost j: nat, ghost code: seq<nat>,
    bytes: seq<nat>) returns (frame: nat)
    requires mem.Valid() && IsDirectory(mem.role, pgdir) && q < 0xC_0000 && i == CODE_ENTRY + q / ENTRIES
      && j == q % ENTRIES
    requires PagePart(code, PAGE * q, bytes)
    requires Translate(mem.words[..], pgdir, CodeVa(q, 0)) == None
    requires i < ENTRIES && |mem.free| > if Word(mem.words[..], pgdir, i) == 0 then 1 else 0
    modifies mem, mem.words
    ensures mem.Valid() && ENTRIES * (frame + 1) <= |mem.words[..]|
    ensures FreshlyMapped(old(mem.words[..]), old(mem.role), mem.words[..], mem.role, pgdir, i, j, frame)
    ensures PageHolds(mem.words[..], frame, code, PAGE * q)
    ensures Word(mem.words[..], pgdir, i) != 0
    ensures |mem.free| == old(|mem.free| - 1 - if Word(mem.words[..], pgdir, i) == 0 then 1 else 0)
  {
    VaParts(q, 0);
    ghost var m0, role0 := mem.words[..], mem.role;
    frame := MapFresh(mem, pgdir, CodeVa(q, 0), i, j);
    ghost var m1 := mem.words[..];
    FillPage(mem, frame, code, PAGE * q, bytes);
    FillKeeps(m0, m1, mem.words[..], role0, mem.role, frame, pgdir, i, j);
  }

  lemma FillKeeps(m0: seq<nat>, m1: seq<nat>, m2: seq<nat>, role0: map<nat, Role>, role: map<nat, Role>, u: nat,
    d: nat, i: nat, j: nat)
    requires FreshlyMapped(m0, role0, m1, role, d, i, j, u) && OnlyFrame(m1, m2, u) && IsDirectory(role0, d)
    requires KeepsTranslations(m1, m2, role) && i < ENTRIES && j < ENTRIES
    ensures FreshlyMapped(m0, role0, m2, role, d, i, j, u)
    ensures i < ENTRIES && ENTRIES * d + i < |m1| ==> Word(m2, d, i) == Word(m1, d, i)
  {
    OtherFrameAll(m1, m2, u, d);
    assert 1024 * d + i < |m1| ==> (1024 * d + i) / 1024 == d;
    var e := m1[1024 * d + i];
    assert (1024 * (e / 0x1000) + j) / 1024 == e / 0x1000;
    forall f | IsDirectory(role0, f)
      ensures IsDirectory(role, f)
    {
    }
  }

  // ---------------------------------------------------------------- the whole image

  ghost predicate MapsPage(m: seq<nat>, d: nat, q: nat, u: nat) {
    forall o: nat :: o < PAGE ==> Translate(m, d, CodeVa(q, o)) == Some(u * PAGE + o)
  }

  /** Both entries on the way to frame u have the bits present, writable and user-accessible, and no other flags. */
  ghost predicate UserMapping(m: seq<nat>, role: map<nat, Role>, d: nat, i: nat, j: nat, u: nat) {
    && i < 1024 && j < 1024 && 1024 * d + i < |m|
    && var e := m[1024 * d + i];
       && e % 0x1000 == 7 && IsTable(role, e / 0x1000, d, i)
       && 1024 * (e / 0x1000) + j < |m| && m[1024 * (e / 0x1000) + j] == 0x1000 * u + 7
  }

  /** Page q of the image is in frame u, mapped where it belongs and nowhere else. */
  ghost predicate LoadedPage(m: seq<nat>, role: map<nat, Role>, d: nat, q: nat, u: nat, code: seq<nat>) {
    && u in role
    && role[u] == Page(d, CODE_ENTRY + q / ENTRIES, q % ENTRIES)
    && ENTRIES * (u + 1) <= |m| && PageHolds(m, u, code, PAGE * q) && MapsPage(m, d, q, u)
    && UserMapping(m, role, d, 256 + q / 1024, q % 1024, u)
  }

  /** Translations other than those of the first n code pages of directory d are unchanged. */
  ghost predicate OutsideSame(m0: seq<nat>, m: seq<nat>, role0: map<nat, Role>, d: nat, n: nat) {
    forall d', va: nat :: IsDirectory(role0, d') && !(d' == d && CODE_BASE <= va < CODE_BASE + PAGE * n) ==>
      Translate(m, d', va) == Translate(m0, d', va)
  }

  /** After the first |frames| turns of the copying loop for an image of n pages. */
  ghost predicate Progress(m0: seq<nat>, role0: map<nat, Role>, m: seq<nat>, role: map<nat, Role>, d: nat,
    frames: seq<nat>, code: seq<nat>, n: nat)
  {
    && |frames| <= n
    && (forall q :: 0 <= q < |frames| ==> LoadedPage(m, role, d, q, frames[q], code))
    && (forall q :: |frames| <= q < n ==> Translate(m, d, CodeVa(q, 0)) == None)
    && OutsideSame(m0, m, role0, d, n)
    && Extends(role0, role) && KeepsContents(m0, m, role0) && OthersBelong(role0, role, d)
  }

  ghost predicate OthersBelong(role0: map<nat, Role>, role: map<nat, Role>, d: nat) {
    forall f :: f in role && f !in role0 ==> Belongs(role[f], f, d)
  }

  lemma VaOfSlot(va: nat, q: nat)
    requires va / 0x40_0000 == CODE_ENTRY + q / ENTRIES && va / PAGE % ENTRIES == q % ENTRIES
    ensures CODE_BASE + PAGE * q <= va < CODE_BASE + PAGE * q + PAGE
  {
    assert va / 0x40_0000 == va / PAGE / ENTRIES;
    assert va / PAGE == 0x4_0000 + q;
  }

  /** A turn of the loop leaves the pages already loaded as they are. */
  lemma OldPage(m: seq<nat>, role: map<nat, Role>, m': seq<nat>, role': map<nat, Role>, d: nat, q: nat, u: nat,
    code: seq<nat>,
    q': nat, u': nat)
    requires IsDirectory(role, d) && LoadedPage(m, role, d, q, u, code) && q != q'
    requires FreshlyMapped(m, role, m', role', d, CODE_ENTRY + q' / ENTRIES, q' % ENTRIES, u')
    ensures LoadedPage(m', role', d, q, u, code)
  {
    SamePageHolds(m, m', u, code, PAGE * q);
    OldMapping(m, role, m', role', d, q, u, q', u');
    forall o: nat | o < PAGE
      ensures Translate(m', d, CodeVa(q, o)) == Some(u * PAGE + o)
    {
      VaParts(q, o);
    }
  }

  lemma OldMapping(m: seq<nat>, role: map<nat, Role>, m': seq<nat>, role': map<nat, Role>, d: nat, q: nat, u: nat,
    q': nat, u': nat)
    requires UserMapping(m, role, d, 256 + q / 1024, q % 1024, u) && q != q'
    requires FreshlyMapped(m, role, m', role', d, 256 + q' / 1024, q' % 1024, u')
    ensures UserMapping(m', role', d, 256 + q / 1024, q % 1024, u)
  {
    var i, j := 256 + q / 1024, q % 1024;
    var e := m[1024 * d + i];
    assert Word(m', d, i) == e by {
      if i != 256 + q' / 1024 {
        assert Word(m', d, i) == Word(m, d, i);
      }
    }
    var x := 1024 * (e / 0x1000) + j;
    assert x / 1024 == e / 0x1000 && x % 1024 == j;
  }

  lemma NewPage(m: seq<nat>, role: map<nat, Role>, m': seq<nat>, role': map<nat, Role>, d: nat, q: nat, u: nat,
    code: seq<nat>)
    requires IsDirectory(role, d) && ENTRIES * (u + 1) <= |m'| && PageHolds(m', u, code, PAGE * q)
    requires FreshlyMapped(m, role, m', role', d, CODE_ENTRY + q / ENTRIES, q % ENTRIES, u)
    requires q / 1024 < 768 && 1024 * d + 256 + q / 1024 < |m|
    requires Word(m, d, 256 + q / 1024) == 0 || Word(m, d, 256 + q / 1024) % 0x1000 == 7
    ensures LoadedPage(m', role', d, q, u, code)
  {
    forall o: nat | o < PAGE
      ensures Translate(m', d, CodeVa(q, o)) == Some(u * PAGE + o)
    {
      VaParts(q, o);
      assert Some(u * PAGE + o) ==
        NewTranslation(m, d, CODE_ENTRY + q / ENTRIES, q % ENTRIES, Some(u), d, CodeVa(q, o));
    }
  }

  lemma StillOutside(m0: seq<nat>, role0: map<nat, Role>, m: seq<nat>, role: map<nat, Role>, m': seq<nat>,
    role': map<nat, Role>,
    d: nat, q: nat, u: nat, n: nat)
    requires OutsideSame(m0, m, role0, d, n) && Extends(role0, role) && q < n
    requires FreshlyMapped(m, role, m', role', d, CODE_ENTRY + q / ENTRIES, q % ENTRIES, u)
    ensures OutsideSame(m0, m', role0, d, n)
  {
    forall d', va: nat | IsDirectory(role0, d') && !(d' == d && CODE_BASE <= va < CODE_BASE + PAGE * n)
      ensures Translate(m', d', va) == Translate(m0, d', va)
    {
      assert IsDirectory(role, d');
      if d' == d && va / 0x40_0000 == CODE_ENTRY + q / ENTRIES && va / PAGE % ENTRIES == q % ENTRIES {
        VaOfSlot(va, q);
      }
    }
  }

  /** The entry for the next page is empty, or was made for the page before. */
  lemma EntryFlags(m0: seq<nat>, role0: map<nat, Role>, m: seq<nat>, role: map<nat, Role>, d: nat, frames: seq<nat>,
    code: seq<nat>, n: nat)
    requires Progress(m0, role0, m, role, d, frames, code, n) && |frames| < n <= 0xC_0000
    requires ENTRIES * (d + 1) <= |m| && EntriesMissingFrom(m, d, |frames|, n)
    ensures var k := |frames|;
      k / 1024 < 768 && (Word(m, d, 256 + k / 1024) == 0 || Word(m, d, 256 + k / 1024) % 0x1000 == 7)
  {
    var k := |frames|;
    assert k / 1024 * ENTRIES < n;
    if k % 1024 != 0 {
      assert LoadedPage(m, role, d, k - 1, frames[k - 1], code);
      assert (k - 1) / 1024 == k / 1024;
    }
  }

  lemma ProgressStep(m0: seq<nat>, role0: map<nat, Role>, m: seq<nat>, role: map<nat, Role>, m': seq<nat>,
    role': map<nat, Role>,
    d: nat, frames: seq<nat>, code: seq<nat>, n: nat, u: nat)
    requires Progress(m0, role0, m, role, d, frames, code, n) && IsDirectory(role, d) && |frames| < n
    requires ENTRIES * (u + 1) <= |m'| && PageHolds(m', u, code, PAGE * |frames|)
    requires FreshlyMapped(m, role, m', role', d, CODE_ENTRY + |frames| / ENTRIES, |frames| % ENTRIES, u)
    requires ENTRIES * (d + 1) <= |m| && n <= 0xC_0000 && EntriesMissingFrom(m, d, |frames|, n)
    ensures Progress(m0, role0, m', role', d, frames + [u], code, n)
  {
    var k, frames' := |frames|, frames + [u];
    EntryFlags(m0, role0, m, role, d, frames, code, n);
    forall q | 0 <= q < |frames'|
      ensures LoadedPage(m', role', d, q, frames'[q], code)
    {
      if q < k {
        OldPage(m, role, m', role', d, q, frames[q], code, k, u);
      } else {
        NewPage(m, role, m', role', d, k, u, code);
      }
    }
    forall q | k + 1 <= q < n
      ensures Translate(m', d, CodeVa(q, 0)) == None
    {
      VaParts(q, 0);
    }
    StillOutside(m0, role0, m, role, m', role', d, k, u, n);
  }

  lemma ImagePage(code: seq<nat>, q: nat, end: nat)
    requires PAGE * q <= end <= |code| && (end == PAGE * q + PAGE || (end == |code| && end < PAGE * q + PAGE))
    requires AllBytes(code)
    ensures PagePart(code, PAGE * q, code[PAGE * q..end])
  {
  }

  /** Entries for code pages are missing exactly where no page has been mapped yet. */
  ghost predicate EntriesMissingFrom(m: seq<nat>, d: nat, k: nat, n: nat)
    requires ENTRIES * (d + 1) <= |m| && n <= 0xC_0000
  {
    forall x: nat :: x * ENTRIES < n ==> (Word(m, d, CODE_ENTRY + x) == 0 <==> x * ENTRIES >= k)
  }

  lemma EntriesStep(m: seq<nat>, m': seq<nat>, d: nat, k: nat, n: nat)
    requires ENTRIES * (d + 1) <= |m| && k < n <= 0xC_0000 && EntriesMissingFrom(m, d, k, n)
    requires OnlyEntry(m, m', d, CODE_ENTRY + k / ENTRIES) && Word(m', d, CODE_ENTRY + k / ENTRIES) != 0
    ensures EntriesMissingFrom(m', d, k + 1, n)
    ensures Word(m, d, CODE_ENTRY + k / ENTRIES) == 0 <==> k % ENTRIES == 0
  {
    assert k / ENTRIES * ENTRIES < n;
    forall x: nat | x * ENTRIES < n
      ensures Word(m', d, CODE_ENTRY + x) == 0 <==> x * ENTRIES >= k + 1
    {
      if x != k / ENTRIES {
        assert Word(m', d, CODE_ENTRY + x) == Word(m, d, CODE_ENTRY + x);
      }
    }
  }

  /** Tables that the pages k..n-1 still need. */
  function TablesFor(k: nat, n: nat): int {
    (n + ENTRIES - 1) / ENTRIES - (k + ENTRIES - 1) / ENTRIES
  }

  /**
   * copier_code into a directory with no code mapping, given frames enough. Also the last, partial
   * page is always allocated, even when the image ends on a page boundary.
   */
  method CopierCode(mem: Machine, code: seq<nat>, pgdir: nat) returns (ghost frames: seq<nat>)
    requires mem.Valid() && IsDirectory(mem.role, pgdir)
    requires |code| / PAGE < 0xC_0000 && AllBytes(code)
    requires EntriesMissingFrom(mem.words[..], pgdir, 0, |code| / PAGE + 1)
    requires |mem.free| >= |code| / PAGE + 1 + TablesFor(0, |code| / PAGE + 1)
    modifies mem, mem.words
    ensures mem.Valid() && |frames| == |code| / PAGE + 1
    ensures Progress(old(mem.words[..]), old(mem.role), mem.words[..], mem.role, pgdir, frames, code, |frames|)
  {
    var l := |code| / PAGE;
    ghost var n := l + 1;
    ghost var m0, role0 := mem.words[..], mem.role;
    frames := [];
    InitialProgress(mem.lay, m0, role0, pgdir, code, n);
    for k := 0 to l
      invariant mem.Valid() && |frames| == k
      invariant Progress(m0, role0, mem.words[..], mem.role, pgdir, frames, code, n)
      invariant pgdir < mem.lay.last && EntriesMissingFrom(mem.words[..], pgdir, k, n)
      invariant |mem.free| >= n - k + TablesFor(k, n)
    {
      frames := NextPage(mem, code, pgdir, k, PAGE * k + PAGE, m0, role0, frames, n);
    }
    frames := NextPage(mem, code, pgdir, l, |code|, m0, role0, frames, n);
  }

  lemma InitialProgress(lay: Layout, m: seq<nat>, role: map<nat, Role>, d: nat, code: seq<nat>, n: nat)
    requires Structure(lay, m, role) && IsDirectory(role, d) && n <= 0xC_0000
    requires d < lay.last && EntriesMissingFrom(m, d, 0, n)
    ensures Progress(m, role, m, role, d, [], code, n)
  {
    forall q | 0 <= q < n
      ensures Translate(m, d, CodeVa(q, 0)) == None
    {
      VaParts(q, 0);
      assert q / ENTRIES * ENTRIES < n;
    }
  }

  /** One turn: page k of the image, whose bytes end before `end`. */
  method NextPage(mem: Machine, code: seq<nat>, pgdir: nat, k: nat, end: nat,
    ghost m0: seq<nat>, ghost role0: map<nat, Role>, ghost frames: seq<nat>, ghost n: nat)
      returns (ghost frames': seq<nat>)
    requires mem.Valid() && IsDirectory(role0, pgdir) && k < n <= 0xC_0000 && pgdir < mem.lay.last
    requires PAGE * k <= end <= |code| && (end == PAGE * k + PAGE || (end == |code| && end < PAGE * k + PAGE))
    requires AllBytes(code)
    requires |frames| == k && Progress(m0, role0, mem.words[..], mem.role, pgdir, frames, code, n)
    requires EntriesMissingFrom(mem.words[..], pgdir, k, n)
    requires |mem.free| >= n - k + TablesFor(k, n)
    modifies mem, mem.words
    ensures mem.Valid() && |frames'| == k + 1
    ensures Progress(m0, role0, mem.words[..], mem.role, pgdir, frames', code, n)
    ensures EntriesMissingFrom(mem.words[..], pgdir, k + 1, n)
    ensures |mem.free| >= n - k - 1 + TablesFor(k + 1, n)
  {
    ghost var m, role := mem.words[..], mem.role;
    ghost var i, j := CODE_ENTRY + k / ENTRIES, k % ENTRIES;
    assert ENTRIES * (pgdir + 1) <= |m|;
    ImagePage(code, k, end);
    TablesStep(m, pgdir, k, n, i, |mem.free|);
    var u := CopyPage(mem, pgdir, k, i, j, code, code[PAGE * k..end]);
    frames' := frames + [u];
    PageDone(m0, role0, m, role, mem.words[..], mem.role, pgdir, frames, code, n, u);
  }

  lemma PageDone(m0: seq<nat>, role0: map<nat, Role>, m: seq<nat>, role: map<nat, Role>, m': seq<nat>,
    role': map<nat, Role>, d: nat, frames: seq<nat>, code: seq<nat>, n: nat, u: nat)
    requires Progress(m0, role0, m, role, d, frames, code, n) && IsDirectory(role, d) && |frames| < n <= 0xC_0000
    requires ENTRIES * (u + 1) <= |m'| && PageHolds(m', u, code, PAGE * |frames|)
    requires FreshlyMapped(m, role, m', role', d, CODE_ENTRY + |frames| / ENTRIES, |frames| % ENTRIES, u)
    requires ENTRIES * (d + 1) <= |m| && EntriesMissingFrom(m, d, |frames|, n)
    requires Word(m', d, CODE_ENTRY + |frames| / ENTRIES) != 0
    ensures Progress(m0, role0, m', role', d, frames + [u], code, n)
    ensures EntriesMissingFrom(m', d, |frames| + 1, n)
  {
    ProgressStep(m0, role0, m, role, m', role', d, frames, code, n, u);
    EntriesStep(m, m', d, |frames|, n);
  }

  /** The frames counted on for pages and tables are there, and those for the next pages remain. */
  lemma TablesStep(m: seq<nat>, d: nat, k: nat, n: nat, i: nat, frames: nat)
    requires frames >= n - k + TablesFor(k, n)
    requires ENTRIES * (d + 1) <= |m| && k < n <= 0xC_0000 && EntriesMissingFrom(m, d, k, n)
      && i == CODE_ENTRY + k / ENTRIES
    ensures i < ENTRIES
    ensures var made := 1 + if Word(m, d, i) == 0 then 1 else 0;
      frames >= made && frames - made >= n - k - 1 + TablesFor(k + 1, n)
  {
    assert k / ENTRIES * ENTRIES < n;
  }

  lemma BytesOfWord(w: nat, k: nat)
    requires k < 4
    ensures ByteOf(w, k) == LittleEndian(w, k)
  {
    assert w / 0x100 / 0x100 == w / 0x1_0000;
    assert w / 0x1_0000 / 0x100 == w / 0x100_0000;
  }

  /**
   * Reading virtual byte 0x40000000 + x gives byte x of the image, zero beyond its end; the page is
   * present, writable and accessible to user code.
   */
  lemma ImageReadable(m0: seq<nat>, role0: map<nat, Role>, m: seq<nat>, role: map<nat, Role>, d: nat,
    frames: seq<nat>, code: seq<nat>, x: nat)
    requires Progress(m0, role0, m, role, d, frames, code, |frames|) && x < PAGE * |frames|
    ensures Translate(m, d, 0x4000_0000 + x).Some?
    ensures var a := Translate(m, d, 0x4000_0000 + x).value;
      && a / 4 < |m| && LittleEndian(m[a / 4], a % 4) == (if x < |code| then code[x] else 0)
      && UserMapping(m, role, d, (0x4000_0000 + x) / 0x40_0000, (0x4000_0000 + x) / 0x1000 % 1024, a / 0x1000)
  {
    var q, o := x / PAGE, x % PAGE;
    assert LoadedPage(m, role, d, q, frames[q], code);
    assert CodeVa(q, o) == CODE_BASE + x;
    assert (frames[q] * PAGE + o) / PAGE == frames[q] && (frames[q] * PAGE + o) % PAGE == o;
    VaParts(q, o);
    BytesOfWord(Word(m, frames[q], o / 4), o % 4);
    assert (frames[q] * PAGE + o) / 4 == ENTRIES * frames[q] + o / 4 && (frames[q] * PAGE + o) % 4 == o % 4;
    assert ByteAt(m, frames[q], o) == ImageByte(code, PAGE * q + o);
  }

  /** The frames of the image differ from each other and from every directory and table. */
  lemma ImageFramesDistinct(m0: seq<nat>, role0: map<nat, Role>, m: seq<nat>, role: map<nat, Role>, d: nat,
    frames: seq<nat>, code: seq<nat>, q: nat, f: nat)
    requires Progress(m0, role0, m, role, d, frames, code, |frames|) && q < |frames|
    requires f in role
    requires role[f].Directory? || role[f].Table? || exists q' :: 0 <= q' < |frames| && q' != q && frames[q'] == f
    ensures frames[q] != f
  {
    assert LoadedPage(m, role, d, q, frames[q], code);
    if q' :| 0 <= q' < |frames| && q' != q && frames[q'] == f {
      assert LoadedPage(m, role, d, q', frames[q'], code);
    }
  }

  /**
   * A whole process image comes and goes: create_pgdir, copier_code, libere_pages. Every frame is
   * back in the pool once, every other frame keeps its role, other directories never change.
   */
  method LoadAndRelease(mem: Machine, kernel: array<nat>, code: seq<nat>)
    requires mem.Valid() && kernel.Length == ENTRIES && kernel != mem.words
    requires forall i :: 0 <= i < FIRST_USER ==> kernel[i] / PAGE < mem.lay.first
    requires |code| / PAGE < 0xC_0000 && AllBytes(code)
    requires |mem.free| >= 1 + |code| / PAGE + 1 + TablesFor(0, |code| / PAGE + 1)
    modifies mem, mem.words
    ensures mem.Valid() && mem.role == old(mem.role)
    ensures Elements(mem.free) == Elements(old(mem.free)) && |mem.free| == |old(mem.free)|
    ensures KeepsTranslations(old(mem.words[..]), mem.words[..], old(mem.role))
  {
    ghost var m0, role0, free0 := mem.words[..], mem.role, mem.free;
    assert mem.free[0] in mem.free && mem.free[0] !in role0;
    NotOwned(mem.lay, m0, role0, free0[0]);
    var pgdir := mem.CreatePgdir(kernel);
    ghost var m1, role1 := mem.words[..], mem.role;
    ghost var n := |code| / PAGE + 1;
    assert pgdir < mem.lay.last && EntriesMissingFrom(m1, pgdir, 0, n);
    ghost var frames := CopierCode(mem, code, pgdir);
    ghost var m2, role2 := mem.words[..], mem.role;
    mem.LiberePages(pgdir);
    Released(role0, role1, role2, mem.role, pgdir);
    SameFree(mem.lay, free0, mem.free, role0);
    OthersUntouched(m0, m1, m2, mem.words[..], role0, role1, pgdir, n);
  }

  /** Nothing belongs to a frame that is not a directory. */
  lemma NotOwned(lay: Layout, m: seq<nat>, role: map<nat, Role>, d: nat)
    requires Structure(lay, m, role) && d !in role
    ensures forall f :: f in role ==> !Belongs(role[f], f, d)
  {
    forall f | f in role
      ensures !Belongs(role[f], f, d)
    {
      assert Placed(lay, m, role, f);
    }
  }

  ghost function Elements(s: seq<nat>): set<nat> {
    set f | f in s
  }

  /** Two free lists beside the same allocated frames hold the same frames. */
  lemma SameFree(lay: Layout, a: seq<nat>, b: seq<nat>, role: map<nat, Role>)
    requires Partition(lay, a, role) && Partition(lay, b, role)
    ensures Elements(a) == Elements(b) && |a| == |b|
  {
    DistinctSize(a);
    DistinctSize(b);
  }

  lemma {:induction false} DistinctSize(s: seq<nat>)
    requires Distinct(s)
    ensures |Elements(s)| == |s|
  {
    if s == [] {
      assert Elements(s) == {};
    } else {
      var n := |s| - 1;
      DistinctSize(s[..n]);
      assert s == s[..n] + [s[n]];
      assert Elements(s) == Elements(s[..n]) + {s[n]};
    }
  }

  lemma OthersUntouched(m0: seq<nat>, m1: seq<nat>, m2: seq<nat>, m3: seq<nat>, role0: map<nat, Role>,
    role1: map<nat, Role>, d: nat, n: nat)
    requires d !in role0 && role1 == role0[d := Directory]
    requires KeepsTranslations(m0, m1, role0) && OutsideSame(m1, m2, role1, d, n) && KeepsTranslations(m2, m3, role0)
    ensures KeepsTranslations(m0, m3, role0)
  {
    forall d', va: nat | IsDirectory(role0, d')
      ensures Translate(m3, d', va) == Translate(m0, d', va)
    {
      assert IsDirectory(role1, d');
    }
  }

  lemma Released(role0: map<nat, Role>, role1: map<nat, Role>, role2: map<nat, Role>, role3: map<nat, Role>, d: nat)
    requires d !in role0 && role1 == role0[d := Directory] && Extends(role1, role2) && OthersBelong(role1, role2, d)
    requires forall f :: f in role0 ==> !Belongs(role0[f], f, d)
    requires forall f :: f in role3 <==> f in role2 && !Belongs(role2[f], f, d)
    requires forall f :: f in role3 ==> role3[f] == role2[f]
    ensures role3 == role0
  {
    forall f
      ensures f in role3 <==> f in role0
    {
      if f in role2 && f !in role1 {
        assert Belongs(role2[f], f, d);
      }
    }
  }
}
