/**
 * Physical memory as 32-bit words, the intrusive list of free frames threaded through it
 * (kernel/freelist.c) and the two-level page tables stored in it (kernel/mapping.c).
 * Everything here is about memory contents as a value; PageTables.dfy updates a memory in place.
 */
module PhysicalMemory {

  import opened Wrappers

  const PAGE: nat := 4096
  const ENTRIES: nat := 1024       // words in a frame, entries in a directory or a table
  const FIRST_USER: nat := 64      // directory entries 0..63 are the kernel's
  const USR_FLAGS: nat := 7

  /** What an allocated frame is used for. */
  datatype Role =
    | Raw                                   // handed out, in no table
    | Directory
    | Table(dir: nat, index: nat)           // table of entry `index` of directory `dir`
    | Page(dir: nat, index: nat, slot: nat) // user page mapped by entry `slot` of that table

  /** Memory of `last` frames, of which first..last-1 form the pool; never frame 0, which is NULL. */
  datatype Layout = Layout(first: nat, last: nat)

  ghost predicate IsMemory(lay: Layout, m: seq<nat>) {
    0 < lay.first < lay.last <= 0x10_0000 && |m| == ENTRIES * lay.last
  }

  function Word(m: seq<nat>, frame: nat, k: nat): nat
    requires k < ENTRIES && ENTRIES * frame + k < |m|
  {
    m[ENTRIES * frame + k]
  }

  /** The directory entry that designates the table in frame t. */
  function TableEntry(t: nat): nat {
    PAGE * t + USR_FLAGS
  }

  // ---------------------------------------------------------------- the free list

  /** The addresses found by following the first word of each free frame from `head`, ending at NULL. */
  ghost predicate Chain(lay: Layout, m: seq<nat>, head: nat, free: seq<nat>)
    requires IsMemory(lay, m)
  {
    && (forall k :: 0 <= k < |free| ==> lay.first <= free[k] < lay.last)
    && head == AddressOrNull(free, 0)
    && forall k {:trigger Word(m, free[k], 0)} :: 0 <= k < |free| ==> Word(m, free[k], 0) == AddressOrNull(free, k + 1)
  }

  function AddressOrNull(free: seq<nat>, k: nat): nat {
    if k < |free| then PAGE * free[k] else 0
  }

  ghost predicate Distinct(free: seq<nat>) {
    forall i, j :: 0 <= i < j < |free| ==> free[i] != free[j]
  }

  /** Free and allocated frames partition the pool. */
  ghost predicate Partition(lay: Layout, free: seq<nat>, role: map<nat, Role>) {
    && Distinct(free)
    && InPool(lay, role)
    && (forall f :: f in role ==> f !in free)
    && (forall f :: f in free ==> lay.first <= f < lay.last)
    && (forall f :: lay.first <= f < lay.last ==> f in role || f in free)
  }

  ghost predicate InPool(lay: Layout, role: map<nat, Role>) {
    forall f :: f in role ==> lay.first <= f < lay.last
  }

  // ---------------------------------------------------------------- directories and tables

  /** Entry i of directory d designates a table owned by that entry alone; kernel tables lie below the pool. */
  ghost predicate EntryOk(lay: Layout, m: seq<nat>, role: map<nat, Role>, d: nat, i: nat)
    requires IsMemory(lay, m) && d < lay.last && i < ENTRIES
  {
    var e := Word(m, d, i);
    if i < FIRST_USER then e / PAGE < lay.first
    else e != 0 ==> e / PAGE in role && role[e / PAGE] == Table(d, i)
  }

  /** Entry j of a user table designates a page mapped there alone. */
  ghost predicate SlotOk(lay: Layout, m: seq<nat>, role: map<nat, Role>, t: nat, d: nat, i: nat, j: nat)
    requires IsMemory(lay, m) && t < lay.last && j < ENTRIES
  {
    var w := Word(m, t, j);
    w != 0 ==> w / PAGE in role && role[w / PAGE] == Page(d, i, j)
  }

  /** Frame f is where its role says it is. */
  ghost predicate Placed(lay: Layout, m: seq<nat>, role: map<nat, Role>, f: nat)
    requires IsMemory(lay, m) && f in role
    requires InPool(lay, role)
  {
    match role[f]
    case Raw => true
    case Directory =>
      forall i {:trigger EntryOk(lay, m, role, f, i)} :: 0 <= i < ENTRIES ==> EntryOk(lay, m, role, f, i)
    case Table(d, i) =>
      && IsDirectory(role, d) && FIRST_USER <= i < ENTRIES
      && Word(m, d, i) != 0 && Word(m, d, i) / PAGE == f
      && forall j {:trigger SlotOk(lay, m, role, f, d, i, j)} :: 0 <= j < ENTRIES ==> SlotOk(lay, m, role, f, d, i, j)
    case Page(d, i, j) =>
      && IsDirectory(role, d) && FIRST_USER <= i < ENTRIES && j < ENTRIES
      && Word(m, d, i) != 0
      && IsTable(role, Word(m, d, i) / PAGE, d, i)
      && Word(m, Word(m, d, i) / PAGE, j) != 0 && Word(m, Word(m, d, i) / PAGE, j) / PAGE == f
  }

  ghost predicate IsDirectory(role: map<nat, Role>, d: nat) {
    d in role && role[d] == Directory
  }

  ghost predicate IsTable(role: map<nat, Role>, t: nat, d: nat, i: nat) {
    t in role && role[t] == Table(d, i)
  }

  ghost predicate Tables(lay: Layout, m: seq<nat>, role: map<nat, Role>)
    requires IsMemory(lay, m)
    requires InPool(lay, role)
  {
    forall f {:trigger Placed(lay, m, role, f)} :: f in role ==> Placed(lay, m, role, f)
  }

  /** Directories and tables are as the roles of their frames say. */
  ghost predicate Structure(lay: Layout, m: seq<nat>, role: map<nat, Role>) {
    IsMemory(lay, m) && InPool(lay, role) && Tables(lay, m, role)
  }

  ghost predicate Wf(lay: Layout, m: seq<nat>, head: nat, free: seq<nat>, role: map<nat, Role>) {
    Structure(lay, m, role) && Chain(lay, m, head, free) && Partition(lay, free, role)
  }

  /** get_physaddr: the walk of section 3.6.2 of the Intel manual, on the entries alone. */
  function Translate(m: seq<nat>, d: nat, va: nat): Option<nat>
  {
    var i, j := va / 0x40_0000, va / PAGE % ENTRIES;
    if i >= ENTRIES || ENTRIES * d + i >= |m| then None else
    var e := Word(m, d, i);
    if e == 0 || ENTRIES * (e / PAGE) + j >= |m| then None else
    var w := Word(m, e / PAGE, j);
    if w == 0 then None else Some(w / PAGE * PAGE + va % PAGE)
  }

  ghost predicate KeepsTranslations(m: seq<nat>, m': seq<nat>, role: map<nat, Role>) {
    forall d, va: nat :: IsDirectory(role, d) ==> Translate(m', d, va) == Translate(m, d, va)
  }

  // ---------------------------------------------------------------- what each kind of write preserves

  /** m' differs from m in frame f only. */
  ghost predicate OnlyFrame(m: seq<nat>, m': seq<nat>, f: nat) {
    |m'| == |m| && forall x :: 0 <= x < |m| && x / ENTRIES != f ==> m'[x] == m[x]
  }

  lemma OtherFrame(m: seq<nat>, m': seq<nat>, f: nat, g: nat, k: nat)
    requires OnlyFrame(m, m', f) && f != g && k < ENTRIES && ENTRIES * g + k < |m|
    ensures Word(m', g, k) == Word(m, g, k)
  {
    assert (ENTRIES * g + k) / ENTRIES == g;
  }

  /** Translation through a directory reads that directory, its own tables and kernel tables only. */
  ghost predicate ReadsOnly(lay: Layout, role: map<nat, Role>, f: nat) {
    f < lay.first || (f in role && (role[f].Directory? || role[f].Table?))
  }

  /** Changing a frame that is neither a directory nor a table changes no translation. */
  lemma SameTranslations(lay: Layout, m: seq<nat>, role: map<nat, Role>, m': seq<nat>, f: nat)
    requires Structure(lay, m, role) && OnlyFrame(m, m', f) && !ReadsOnly(lay, role, f)
    ensures KeepsTranslations(m, m', role)
  {
    forall d, va: nat | IsDirectory(role, d)
      ensures Translate(m', d, va) == Translate(m, d, va)
    {
      SameTranslation(lay, m, role, m', f, d, va);
    }
  }

  lemma SameTranslation(lay: Layout, m: seq<nat>, role: map<nat, Role>, m': seq<nat>, f: nat, d: nat, va: nat)
    requires Structure(lay, m, role) && OnlyFrame(m, m', f) && !ReadsOnly(lay, role, f)
    requires IsDirectory(role, d)
    ensures Translate(m', d, va) == Translate(m, d, va)
  {
    var i, j := va / 0x40_0000, va / PAGE % ENTRIES;
    if i < ENTRIES {
      assert Placed(lay, m, role, d) && EntryOk(lay, m, role, d, i);
      OtherFrame(m, m', f, d, i);
      var e := Word(m, d, i);
      if e != 0 {
        OtherFrame(m, m', f, e / PAGE, j);
      }
    }
  }

  /** Contents of raw frames and user pages are free to change. */
  lemma WritePageWf(lay: Layout, m: seq<nat>, head: nat, free: seq<nat>, role: map<nat, Role>, m': seq<nat>, f: nat)
    requires Wf(lay, m, head, free, role) && OnlyFrame(m, m', f)
    requires f in role && (role[f].Raw? || role[f].Page?)
    ensures Wf(lay, m', head, free, role)
    ensures KeepsTranslations(m, m', role)
  {
    ChainElsewhere(lay, m, head, free, m', f);
    forall g | g in role
      ensures Placed(lay, m', role, g)
    {
      PlacedElsewhere(lay, m, role, m', f, g);
    }
    SameTranslations(lay, m, role, m', f);
  }

  lemma ChainElsewhere(lay: Layout, m: seq<nat>, head: nat, free: seq<nat>, m': seq<nat>, f: nat)
    requires IsMemory(lay, m) && Chain(lay, m, head, free) && OnlyFrame(m, m', f) && f !in free
    ensures Chain(lay, m', head, free)
  {
    forall k | 0 <= k < |free|
      ensures Word(m', free[k], 0) == AddressOrNull(free, k + 1)
    {
      OtherFrame(m, m', f, free[k], 0);
    }
  }

  /** A frame stays placed when no directory or table changes. */
  lemma PlacedElsewhere(lay: Layout, m: seq<nat>, role: map<nat, Role>, m': seq<nat>, f: nat, g: nat)
    requires Structure(lay, m, role) && OnlyFrame(m, m', f) && !ReadsOnly(lay, role, f)
    requires g in role
    ensures Placed(lay, m', role, g)
  {
    assert Placed(lay, m, role, g);
    match role[g] {
      case Raw =>
      case Directory =>
        forall i | 0 <= i < ENTRIES
          ensures EntryOk(lay, m', role, g, i)
        {
          assert EntryOk(lay, m, role, g, i);
          OtherFrame(m, m', f, g, i);
        }
      case Table(d, i) =>
        OtherFrame(m, m', f, d, i);
        forall j | 0 <= j < ENTRIES
          ensures SlotOk(lay, m', role, g, d, i, j)
        {
          assert SlotOk(lay, m, role, g, d, i, j);
          OtherFrame(m, m', f, g, j);
        }
      case Page(d, i, j) =>
        OtherFrame(m, m', f, d, i);
        OtherFrame(m, m', f, Word(m, d, i) / PAGE, j);
    }
  }

  /** page_alloc: the first free frame leaves the list and becomes a raw frame of zeros. */
  lemma AllocWf(lay: Layout, m: seq<nat>, head: nat, free: seq<nat>, role: map<nat, Role>, m': seq<nat>)
    requires Wf(lay, m, head, free, role) && free != [] && OnlyFrame(m, m', free[0])
    ensures Wf(lay, m', Word(m, free[0], 0), free[1..], role[free[0] := Raw])
    ensures KeepsTranslations(m, m', role)
  {
    var f, role' := free[0], role[free[0] := Raw];
    assert free[0] in free;
    SameTranslations(lay, m, role, m', f);
    ChainTail(lay, m, head, free);
    ChainElsewhere(lay, m, Word(m, f, 0), free[1..], m', f);
    assert Partition(lay, free[1..], role');
    forall g | g in role'
      ensures Placed(lay, m', role', g)
    {
      if g != f {
        PlacedElsewhere(lay, m, role, m', f, g);
        MoreRoles(lay, m', role, role', g);
      }
    }
  }

  lemma ChainTail(lay: Layout, m: seq<nat>, head: nat, free: seq<nat>)
    requires IsMemory(lay, m) && Chain(lay, m, head, free) && free != []
    ensures Chain(lay, m, Word(m, free[0], 0), free[1..])
  {
  }

  /** Naming one more frame disturbs no other. */
  lemma MoreRoles(lay: Layout, m: seq<nat>, role: map<nat, Role>, role': map<nat, Role>, g: nat)
    requires IsMemory(lay, m) && g in role && g in role' && role'[g] == role[g]
    requires InPool(lay, role) && InPool(lay, role')
    requires forall h :: h in role && !role[h].Raw? ==> h in role' && role'[h] == role[h]
    requires Placed(lay, m, role, g)
    ensures Placed(lay, m, role', g)
  {
    match role[g] {
      case Raw =>
      case Directory =>
        forall i | 0 <= i < ENTRIES
          ensures EntryOk(lay, m, role', g, i)
        {
          assert EntryOk(lay, m, role, g, i);
        }
      case Table(d, i) =>
        forall j | 0 <= j < ENTRIES
          ensures SlotOk(lay, m, role', g, d, i, j)
        {
          assert SlotOk(lay, m, role, g, d, i, j);
        }
      case Page(d, i, j) =>
    }
  }

  /** page_free of a frame that is in no table: it becomes the head of the list. */
  lemma FreeWf(lay: Layout, m: seq<nat>, head: nat, free: seq<nat>, role: map<nat, Role>, f: nat)
    requires Wf(lay, m, head, free, role) && f in role && role[f].Raw?
    ensures var m' := m[ENTRIES * f := head];
      && Wf(lay, m', PAGE * f, [f] + free, role - {f})
      && OnlyFrame(m, m', f)
      && KeepsTranslations(m, m', role)
  {
    var m', role' := m[ENTRIES * f := head], role - {f};
    SameTranslations(lay, m, role, m', f);
    ChainElsewhere(lay, m, head, free, m', f);
    assert Chain(lay, m', PAGE * f, [f] + free);
    forall g | g in role'
      ensures Placed(lay, m', role', g)
    {
      PlacedElsewhere(lay, m, role, m', f, g);
      MoreRoles(lay, m', role, role', g);
    }
  }

  function SetWord(m: seq<nat>, f: nat, k: nat, w: nat): (m': seq<nat>)
    requires k < ENTRIES && ENTRIES * f + k < |m|
    ensures OnlyFrame(m, m', f)
    ensures forall g, l: nat :: l < ENTRIES && ENTRIES * g + l < |m| ==>
      Word(m', g, l) == if g == f && l == k then w else Word(m, g, l)
  {
    m[ENTRIES * f + k := w]
  }

  predicate Blank(m: seq<nat>, f: nat) {
    forall x :: 0 <= x < |m| && x / ENTRIES == f ==> m[x] == 0
  }

  lemma BlankWord(m: seq<nat>, f: nat, k: nat)
    requires Blank(m, f) && k < ENTRIES && ENTRIES * f + k < |m|
    ensures Word(m, f, k) == 0
  {
    assert (ENTRIES * f + k) / ENTRIES == f;
  }

  /** Memory with frame f set to zeroes. */
  function Cleared(m: seq<nat>, f: nat): (m': seq<nat>)
    ensures |m'| == |m| && forall x :: 0 <= x < |m| ==> m'[x] == if x / ENTRIES == f then 0 else m[x]
  {
    seq(|m|, x requires 0 <= x < |m| => if x / ENTRIES == f then 0 else m[x])
  }

  lemma ClearedIs(m: seq<nat>, m': seq<nat>, f: nat)
    requires OnlyFrame(m, m', f) && Blank(m', f)
    ensures m' == Cleared(m, f)
  {
  }

  /** map_page, first half: a blank raw frame becomes the table of an empty directory entry. */
  lemma LinkTableWf(lay: Layout, m: seq<nat>, head: nat, free: seq<nat>, role: map<nat, Role>, d: nat, i: nat, t: nat)
    requires Wf(lay, m, head, free, role) && IsDirectory(role, d) && FIRST_USER <= i < ENTRIES
    requires Word(m, d, i) == 0 && t in role && role[t].Raw? && Blank(m, t)
    ensures var m' := SetWord(m, d, i, TableEntry(t));
      && Wf(lay, m', head, free, role[t := Table(d, i)])
      && KeepsTranslations(m, m', role)
  {
    var m', role' := SetWord(m, d, i, TableEntry(t)), role[t := Table(d, i)];
    assert TableEntry(t) / PAGE == t;
    ChainElsewhere(lay, m, head, free, m', d);
    forall g | g in role'
      ensures Placed(lay, m', role', g)
    {
      LinkTablePlaced(lay, m, role, d, i, t, g);
    }
    forall d', va: nat | IsDirectory(role, d')
      ensures Translate(m', d', va) == Translate(m, d', va)
    {
      LinkTableTranslate(lay, m, role, d, i, t, d', va);
    }
  }

  lemma LinkTablePlaced(lay: Layout, m: seq<nat>, role: map<nat, Role>, d: nat, i: nat, t: nat, g: nat)
    requires Structure(lay, m, role) && IsDirectory(role, d) && FIRST_USER <= i < ENTRIES
    requires Word(m, d, i) == 0 && t in role && role[t].Raw? && Blank(m, t) && g in role
    ensures InPool(lay, role[t := Table(d, i)])
    ensures Placed(lay, SetWord(m, d, i, TableEntry(t)), role[t := Table(d, i)], g)
  {
    var m', role' := SetWord(m, d, i, TableEntry(t)), role[t := Table(d, i)];
    assert TableEntry(t) / PAGE == t;
    assert Placed(lay, m, role, g);
    match role[g] {
      case Raw =>
        if g == t {
          forall j | 0 <= j < ENTRIES
            ensures SlotOk(lay, m', role', g, d, i, j)
          {
            BlankWord(m, t, j);
          }
        }
      case Directory =>
        forall k | 0 <= k < ENTRIES
          ensures EntryOk(lay, m', role', g, k)
        {
          assert EntryOk(lay, m, role, g, k);
        }
      case Table(d2, i2) =>
        assert Word(m', d2, i2) == Word(m, d2, i2);
        forall j | 0 <= j < ENTRIES
          ensures SlotOk(lay, m', role', g, d2, i2, j)
        {
          assert SlotOk(lay, m, role, g, d2, i2, j);
        }
      case Page(d2, i2, j) =>
        assert Word(m', d2, i2) == Word(m, d2, i2);
    }
  }

  lemma LinkTableTranslate(lay: Layout, m: seq<nat>, role: map<nat, Role>, d: nat, i: nat, t: nat, d': nat, va: nat)
    requires Structure(lay, m, role) && IsDirectory(role, d) && FIRST_USER <= i < ENTRIES
    requires Word(m, d, i) == 0 && t in role && role[t].Raw? && Blank(m, t) && IsDirectory(role, d')
    ensures Translate(SetWord(m, d, i, TableEntry(t)), d', va) == Translate(m, d', va)
  {
    var k, j := va / 0x40_0000, va / PAGE % ENTRIES;
    assert TableEntry(t) / PAGE == t;
    BlankWord(m, t, j);
    if k < ENTRIES && !(d' == d && k == i) {
      var m' := SetWord(m, d, i, TableEntry(t));
      assert Placed(lay, m, role, d') && EntryOk(lay, m, role, d', k);
      var e := Word(m, d', k);
      assert Word(m', d', k) == e;
      if e != 0 {
        assert e / PAGE != d;
        assert Word(m', e / PAGE, j) == Word(m, e / PAGE, j);
      }
    }
  }

  /** map_page, second half: a raw frame is entered in an empty slot of a table. */
  lemma LinkPageWf(lay: Layout, m: seq<nat>, head: nat, free: seq<nat>, role: map<nat, Role>, d: nat, i: nat, t: nat,
    j: nat, w: nat)
    requires Wf(lay, m, head, free, role) && IsTable(role, t, d, i) && j < ENTRIES
    requires Word(m, t, j) == 0 && w != 0 && w / PAGE in role && role[w / PAGE].Raw?
    ensures var m' := SetWord(m, t, j, w);
      && Wf(lay, m', head, free, role[w / PAGE := Page(d, i, j)])
      && TranslatesTo(m, m', role, d, i, j, Some(w / PAGE))
  {
    var m', role' := SetWord(m, t, j, w), role[w / PAGE := Page(d, i, j)];
    ChainElsewhere(lay, m, head, free, m', t);
    forall g | g in role'
      ensures Placed(lay, m', role', g)
    {
      LinkPagePlaced(lay, m, role, d, i, t, j, w, g);
    }
    forall d', va: nat | IsDirectory(role, d')
      ensures Translate(m', d', va) == NewTranslation(m, d, i, j, Some(w / PAGE), d', va)
    {
      SlotTranslate(lay, m, role, d, i, t, j, w, d', va);
    }
  }

  /** One page of one directory now translates to `frame` (or to nothing); all else is as before. */
  function NewTranslation(m: seq<nat>, d: nat, i: nat, j: nat, frame: Option<nat>, d': nat, va: nat): Option<nat> {
    if d' == d && va / 0x40_0000 == i && va / PAGE % ENTRIES == j then
      match frame case Some(f) => Some(f * PAGE + va % PAGE) case None => None
    else Translate(m, d', va)
  }

  ghost predicate TranslatesTo(m: seq<nat>, m': seq<nat>, role: map<nat, Role>, d: nat, i: nat, j: nat,
    frame: Option<nat>) {
    forall d', va: nat :: IsDirectory(role, d') ==> Translate(m', d', va) == NewTranslation(m, d, i, j, frame, d', va)
  }

  lemma LinkPagePlaced(lay: Layout, m: seq<nat>, role: map<nat, Role>,
    d: nat, i: nat, t: nat, j: nat, w: nat, g: nat)
    requires Structure(lay, m, role) && IsTable(role, t, d, i) && j < ENTRIES
    requires Word(m, t, j) == 0 && w != 0 && w / PAGE in role && role[w / PAGE].Raw? && g in role
    ensures InPool(lay, role[w / PAGE := Page(d, i, j)])
    ensures Placed(lay, SetWord(m, t, j, w), role[w / PAGE := Page(d, i, j)], g)
  {
    var m', role' := SetWord(m, t, j, w), role[w / PAGE := Page(d, i, j)];
    assert Placed(lay, m, role, t) && Placed(lay, m, role, g);
    if role[g].Directory? {
      forall k | 0 <= k < ENTRIES
        ensures EntryOk(lay, m', role', g, k)
      {
        assert EntryOk(lay, m, role, g, k);
      }
    } else if role[g].Table? {
      LinkPageTable(lay, m, role, d, i, t, j, w, g);
    }
  }

  lemma LinkPageTable(lay: Layout, m: seq<nat>, role: map<nat, Role>,
    d: nat, i: nat, t: nat, j: nat, w: nat, g: nat)
    requires Structure(lay, m, role) && IsTable(role, t, d, i) && j < ENTRIES
    requires Word(m, t, j) == 0 && w != 0 && w / PAGE in role && role[w / PAGE].Raw?
    requires g in role && role[g].Table?
    ensures InPool(lay, role[w / PAGE := Page(d, i, j)])
    ensures Placed(lay, SetWord(m, t, j, w), role[w / PAGE := Page(d, i, j)], g)
  {
    var m', role' := SetWord(m, t, j, w), role[w / PAGE := Page(d, i, j)];
    assert Placed(lay, m, role, g);
    var Table(d2, i2) := role[g];
    assert Word(m', d2, i2) == Word(m, d2, i2);
    forall l | 0 <= l < ENTRIES
      ensures SlotOk(lay, m', role', g, d2, i2, l)
    {
      assert SlotOk(lay, m, role, g, d2, i2, l);
    }
  }

  /** Effect on translations of writing one slot of a user table. */
  lemma SlotTranslate(lay: Layout, m: seq<nat>, role: map<nat, Role>, d: nat, i: nat, t: nat, j: nat, w: nat,
    d': nat, va: nat)
    requires Structure(lay, m, role) && IsTable(role, t, d, i) && j < ENTRIES && IsDirectory(role, d')
    ensures Translate(SetWord(m, t, j, w), d', va) ==
      NewTranslation(m, d, i, j, if w == 0 then None else Some(w / PAGE), d', va)
  {
    var k := va / 0x40_0000;
    assert Placed(lay, m, role, t);
    if k < ENTRIES {
      assert Placed(lay, m, role, d') && EntryOk(lay, m, role, d', k);
    }
  }

  /** unmap_page: the frame leaves the table and is again in none. */
  lemma UnlinkPageWf(lay: Layout, m: seq<nat>, head: nat, free: seq<nat>, role: map<nat, Role>, d: nat, i: nat,
    t: nat, j: nat)
    requires Wf(lay, m, head, free, role) && IsTable(role, t, d, i) && j < ENTRIES && Word(m, t, j) != 0
    ensures var m', u := SetWord(m, t, j, 0), Word(m, t, j) / PAGE;
      && u in role
      && Wf(lay, m', head, free, role[u := Raw])
      && TranslatesTo(m, m', role, d, i, j, None)
  {
    var m', u := SetWord(m, t, j, 0), Word(m, t, j) / PAGE;
    assert Placed(lay, m, role, t) && SlotOk(lay, m, role, t, d, i, j);
    var role' := role[u := Raw];
    ChainElsewhere(lay, m, head, free, m', t);
    forall g | g in role'
      ensures Placed(lay, m', role', g)
    {
      UnlinkPagePlaced(lay, m, role, d, i, t, j, g);
    }
    forall d', va: nat | IsDirectory(role, d')
      ensures Translate(m', d', va) == NewTranslation(m, d, i, j, None, d', va)
    {
      SlotTranslate(lay, m, role, d, i, t, j, 0, d', va);
    }
  }

  lemma UnlinkPagePlaced(lay: Layout, m: seq<nat>, role: map<nat, Role>,
    d: nat, i: nat, t: nat, j: nat, g: nat)
    requires Structure(lay, m, role) && IsTable(role, t, d, i) && j < ENTRIES && g in role
    requires Word(m, t, j) != 0 && Word(m, t, j) / PAGE in role && role[Word(m, t, j) / PAGE] == Page(d, i, j)
    ensures InPool(lay, role[Word(m, t, j) / PAGE := Raw])
    ensures Placed(lay, SetWord(m, t, j, 0), role[Word(m, t, j) / PAGE := Raw], g)
  {
    var m', role' := SetWord(m, t, j, 0), role[Word(m, t, j) / PAGE := Raw];
    assert Placed(lay, m, role, t) && Placed(lay, m, role, g);
    match role[g] {
      case Raw =>
      case Directory =>
        forall k | 0 <= k < ENTRIES
          ensures EntryOk(lay, m', role', g, k)
        {
          assert EntryOk(lay, m, role, g, k);
        }
      case Table(d2, i2) =>
        assert Word(m', d2, i2) == Word(m, d2, i2);
        forall l | 0 <= l < ENTRIES
          ensures SlotOk(lay, m', role', g, d2, i2, l)
        {
          assert SlotOk(lay, m, role, g, d2, i2, l);
        }
      case Page(d2, i2, j2) =>
        assert Word(m', d2, i2) == Word(m, d2, i2);
    }
  }

  // ---------------------------------------------------------------- facts the operations use

  /** An unmapped user address whose directory entry is present has an empty slot in that entry's table. */
  lemma EmptySlot(lay: Layout, m: seq<nat>, role: map<nat, Role>, d: nat, va: nat)
    requires Structure(lay, m, role) && IsDirectory(role, d)
    requires FIRST_USER <= va / 0x40_0000 < ENTRIES && Word(m, d, va / 0x40_0000) != 0
    requires Translate(m, d, va) == None
    ensures var t := Word(m, d, va / 0x40_0000) / PAGE;
      IsTable(role, t, d, va / 0x40_0000) && t < lay.last && Word(m, t, va / PAGE % ENTRIES) == 0
  {
    assert Placed(lay, m, role, d) && EntryOk(lay, m, role, d, va / 0x40_0000);
  }

  /** Removing a page that is not mapped changes no translation. */
  lemma NothingThere(lay: Layout, m: seq<nat>, role: map<nat, Role>, d: nat, va: nat)
    requires Structure(lay, m, role) && IsDirectory(role, d)
    requires FIRST_USER <= va / 0x40_0000 < ENTRIES && Word(m, d, va / 0x40_0000) != 0
    requires Translate(m, d, va) == None
    ensures TranslatesTo(m, m, role, d, va / 0x40_0000, va / PAGE % ENTRIES, None)
  {
    EmptySlot(lay, m, role, d, va);
    var i, j := va / 0x40_0000, va / PAGE % ENTRIES;
    forall d', va': nat | IsDirectory(role, d')
      ensures Translate(m, d', va') == NewTranslation(m, d, i, j, None, d', va')
    {
      assert d' == d && va' / 0x40_0000 == i && va' / PAGE % ENTRIES == j ==> Translate(m, d, va') == None;
    }
  }

  /** A mapped user address has its frame in the slot of its table. */
  lemma FullSlot(lay: Layout, m: seq<nat>, role: map<nat, Role>, d: nat, va: nat)
    requires Structure(lay, m, role) && IsDirectory(role, d)
    requires FIRST_USER <= va / 0x40_0000 < ENTRIES && Translate(m, d, va).Some?
    ensures var i, j := va / 0x40_0000, va / PAGE % ENTRIES;
      var t := Word(m, d, i) / PAGE;
      && Word(m, d, i) != 0 && IsTable(role, t, d, i) && t < lay.last
      && Word(m, t, j) != 0 && Word(m, t, j) / PAGE == Translate(m, d, va).value / PAGE
  {
    assert Placed(lay, m, role, d) && EntryOk(lay, m, role, d, va / 0x40_0000);
  }

  lemma ComposeTranslations(m: seq<nat>, m1: seq<nat>, m2: seq<nat>, role: map<nat, Role>, role1: map<nat, Role>,
    d: nat, i: nat, j: nat, frame: Option<nat>)
    requires KeepsTranslations(m, m1, role) && TranslatesTo(m1, m2, role1, d, i, j, frame)
    requires IsDirectory(role, d) && forall f :: IsDirectory(role, f) ==> IsDirectory(role1, f)
    ensures TranslatesTo(m, m2, role, d, i, j, frame)
  {
  }

  /** Mapping a page at an unmapped address and unmapping it restores every translation. */
  lemma UndoTranslations(m: seq<nat>, m1: seq<nat>, m2: seq<nat>, role: map<nat, Role>, role1: map<nat, Role>,
    d: nat, va: nat, frame: nat)
    requires Translate(m, d, va) == None
    requires TranslatesTo(m, m1, role, d, va / 0x40_0000, va / PAGE % ENTRIES, Some(frame))
    requires TranslatesTo(m1, m2, role1, d, va / 0x40_0000, va / PAGE % ENTRIES, None)
    requires IsDirectory(role, d) && forall f :: IsDirectory(role, f) ==> IsDirectory(role1, f)
    ensures KeepsTranslations(m, m2, role)
  {
    forall d', va': nat | IsDirectory(role, d')
      ensures Translate(m2, d', va') == Translate(m, d', va')
    {
      if va / 0x40_0000 == va' / 0x40_0000 && va / PAGE % ENTRIES == va' / PAGE % ENTRIES {
        SamePage(m, d, va, va');
      }
    }
  }

  /** Addresses of one page are mapped or unmapped together. */
  lemma SamePage(m: seq<nat>, d: nat, va: nat, va': nat)
    requires va / 0x40_0000 == va' / 0x40_0000 && va / PAGE % ENTRIES == va' / PAGE % ENTRIES
    ensures Translate(m, d, va).None? <==> Translate(m, d, va').None?
  {
  }

  /** Every table a directory designates lies in memory. */
  lemma TableInMemory(lay: Layout, m: seq<nat>, role: map<nat, Role>, d: nat, i: nat)
    requires Structure(lay, m, role) && IsDirectory(role, d) && i < ENTRIES
    ensures d < lay.last && (Word(m, d, i) != 0 ==> Word(m, d, i) / PAGE < lay.last)
  {
    assert Placed(lay, m, role, d) && EntryOk(lay, m, role, d, i);
  }

  lemma MappedNow(m: seq<nat>, m': seq<nat>, role: map<nat, Role>, d: nat, va: nat, frame: nat)
    requires TranslatesTo(m, m', role, d, va / 0x40_0000, va / PAGE % ENTRIES, Some(frame)) && IsDirectory(role, d)
    ensures Translate(m', d, va).Some? && Translate(m', d, va).value / PAGE == frame
  {
    assert Translate(m', d, va) == NewTranslation(m, d, va / 0x40_0000, va / PAGE % ENTRIES, Some(frame), d, va);
    assert (frame * PAGE + va % PAGE) / PAGE == frame;
  }

  /** create_pgdir: a raw frame holding kernel entries and otherwise nothing is a directory. */
  lemma NameDirectoryWf(lay: Layout, m: seq<nat>, head: nat, free: seq<nat>, role: map<nat, Role>, f: nat)
    requires Wf(lay, m, head, free, role) && f in role && role[f].Raw?
    requires forall i :: 0 <= i < FIRST_USER ==> Word(m, f, i) / PAGE < lay.first
    requires forall i :: FIRST_USER <= i < ENTRIES ==> Word(m, f, i) == 0
    ensures Wf(lay, m, head, free, role[f := Directory])
    ensures forall va: nat :: va / 0x40_0000 >= FIRST_USER ==> Translate(m, f, va) == None
  {
    var role' := role[f := Directory];
    forall g | g in role'
      ensures Placed(lay, m, role', g)
    {
      if g == f {
        assert forall i :: 0 <= i < ENTRIES ==> EntryOk(lay, m, role', f, i);
      } else {
        assert Placed(lay, m, role, g);
        MoreRoles(lay, m, role, role', g);
      }
    }
  }

  // ---------------------------------------------------------------- tearing a directory down

  /** The frames libere_pages must return: the directory, its tables, its pages. */
  predicate Belongs(r: Role, f: nat, d: nat) {
    f == d || (r.Table? && r.dir == d) || (r.Page? && r.dir == d)
  }

  /** Role of a frame once directory d is no longer in use. */
  function Orphan(r: Role, f: nat, d: nat): Role {
    if Belongs(r, f, d) then Raw else r
  }

  ghost function Orphaned(role: map<nat, Role>, d: nat): map<nat, Role> {
    map f | f in role :: Orphan(role[f], f, d)
  }

  lemma OrphanedWf(lay: Layout, m: seq<nat>, head: nat, free: seq<nat>, role: map<nat, Role>, d: nat)
    requires Wf(lay, m, head, free, role) && IsDirectory(role, d)
    ensures Wf(lay, m, head, free, Orphaned(role, d))
  {
    var role' := Orphaned(role, d);
    forall g | g in role'
      ensures Placed(lay, m, role', g)
    {
      OrphanedPlaced(lay, m, role, d, g);
    }
  }

  lemma OrphanedPlaced(lay: Layout, m: seq<nat>, role: map<nat, Role>, d: nat, g: nat)
    requires Structure(lay, m, role) && IsDirectory(role, d) && g in role
    ensures InPool(lay, Orphaned(role, d)) && Placed(lay, m, Orphaned(role, d), g)
  {
    var role' := Orphaned(role, d);
    assert Placed(lay, m, role, g);
    match role'[g] {
      case Raw =>
      case Directory =>
        forall i | 0 <= i < ENTRIES
          ensures EntryOk(lay, m, role', g, i)
        {
          assert EntryOk(lay, m, role, g, i);
        }
      case Table(d2, i) =>
        forall j | 0 <= j < ENTRIES
          ensures SlotOk(lay, m, role', g, d2, i, j)
        {
          assert SlotOk(lay, m, role, g, d2, i, j);
        }
      case Page(d2, i, j) =>
    }
  }

  /** The walk of libere_pages has passed the frame before reaching slot j of entry i. */
  predicate Passed(r: Role, d: nat, i: nat, j: nat) {
    match r
    case Table(d', i') => d' == d && i' < i
    case Page(d', i', j') => d' == d && (i' < i || (i' == i && j' < j))
    case _ => false
  }

  /** State of the walk: what has been passed is free, all the rest is as at the start, d's frames being orphans. */
  ghost predicate Walk(m0: seq<nat>, role0: map<nat, Role>, d: nat, i: nat, j: nat, m: seq<nat>,
    role: map<nat, Role>) {
    && (forall f :: f in role <==> f in role0 && !Passed(role0[f], d, i, j))
    && (forall f :: f in role ==> role[f] == Orphan(role0[f], f, d))
    && |m| == |m0|
    && forall x :: 0 <= x < |m| ==> m[x] == m0[x] || (x / ENTRIES in role0 && Passed(role0[x / ENTRIES], d, i, j))
  }

  /** Only the frame in slot j of entry i is passed by one turn of the inner loop. */
  lemma WalkSlot(lay: Layout, m0: seq<nat>, role0: map<nat, Role>, d: nat, i: nat, j: nat, f: nat)
    requires Structure(lay, m0, role0) && IsDirectory(role0, d) && FIRST_USER <= i < ENTRIES && j < ENTRIES
    requires Word(m0, d, i) != 0 && f in role0
    ensures Word(m0, d, i) / PAGE < lay.last
    ensures Passed(role0[f], d, i, j + 1) <==>
      Passed(role0[f], d, i, j)
      || (Word(m0, Word(m0, d, i) / PAGE, j) != 0 && f == Word(m0, Word(m0, d, i) / PAGE, j) / PAGE)
    ensures Word(m0, Word(m0, d, i) / PAGE, j) != 0 ==>
      var u := Word(m0, Word(m0, d, i) / PAGE, j) / PAGE; u in role0 && role0[u] == Page(d, i, j)
  {
    var t := Word(m0, d, i) / PAGE;
    assert Placed(lay, m0, role0, d) && EntryOk(lay, m0, role0, d, i);
    assert Placed(lay, m0, role0, t) && SlotOk(lay, m0, role0, t, d, i, j);
    assert Placed(lay, m0, role0, f);
  }

  /** After the slots of entry i, freeing its table passes the whole entry. */
  lemma WalkEntry(lay: Layout, m0: seq<nat>, role0: map<nat, Role>, d: nat, i: nat, f: nat)
    requires Structure(lay, m0, role0) && IsDirectory(role0, d) && FIRST_USER <= i < ENTRIES && f in role0
    ensures Word(m0, d, i) == 0 ==> (Passed(role0[f], d, i + 1, 0) <==> Passed(role0[f], d, i, 0))
    ensures Word(m0, d, i) != 0 ==>
      var t := Word(m0, d, i) / PAGE;
      && t in role0 && role0[t] == Table(d, i)
      && (Passed(role0[f], d, i + 1, 0) <==> Passed(role0[f], d, i, ENTRIES) || f == t)
  {
    assert Placed(lay, m0, role0, d) && EntryOk(lay, m0, role0, d, i);
    assert Placed(lay, m0, role0, f);
  }

  /** At both ends of the walk: nothing passed, then everything that belongs to d but d itself. */
  lemma WalkEnds(lay: Layout, m0: seq<nat>, role0: map<nat, Role>, d: nat, f: nat)
    requires Structure(lay, m0, role0) && IsDirectory(role0, d) && f in role0
    ensures !Passed(role0[f], d, FIRST_USER, 0)
    ensures Passed(role0[f], d, ENTRIES, 0) <==> Belongs(role0[f], f, d) && f != d
  {
    assert Placed(lay, m0, role0, f);
  }

  /** Moving from (i, j) to (i', j') passes exactly the frame u. */
  ghost predicate PassesOnly(role0: map<nat, Role>, d: nat, i: nat, j: nat, i': nat, j': nat, u: nat) {
    forall f :: f in role0 ==> (Passed(role0[f], d, i', j') <==> Passed(role0[f], d, i, j) || f == u)
  }

  ghost predicate PassesNone(role0: map<nat, Role>, d: nat, i: nat, j: nat, i': nat, j': nat) {
    forall f :: f in role0 ==> (Passed(role0[f], d, i', j') <==> Passed(role0[f], d, i, j))
  }

  lemma WalkFrees(m0: seq<nat>, role0: map<nat, Role>, d: nat, i: nat, j: nat, i': nat, j': nat, m: seq<nat>,
    role: map<nat, Role>, u: nat, w: nat)
    requires Walk(m0, role0, d, i, j, m, role) && PassesOnly(role0, d, i, j, i', j', u)
    requires u in role0 && ENTRIES * u < |m|
    ensures Walk(m0, role0, d, i', j', m[ENTRIES * u := w], role - {u})
  {
  }

  /** The other directories are all still there. */
  lemma WalkDirectories(m0: seq<nat>, role0: map<nat, Role>, d: nat, i: nat, j: nat, m: seq<nat>,
    role: map<nat, Role>, m': seq<nat>)
    requires Walk(m0, role0, d, i, j, m, role) && KeepsTranslations(m, m', role)
    ensures KeepsTranslations(m, m', Orphaned(role0, d))
  {
    forall f | IsDirectory(Orphaned(role0, d), f)
      ensures IsDirectory(role, f)
    {
    }
  }

  /** A frame not yet passed still has its first contents. */
  lemma WalkWord(m0: seq<nat>, role0: map<nat, Role>, d: nat, i: nat, j: nat, m: seq<nat>, role: map<nat, Role>,
    f: nat, k: nat)
    requires Walk(m0, role0, d, i, j, m, role) && f in role0 && !Passed(role0[f], d, i, j)
    requires k < ENTRIES && ENTRIES * f + k < |m0|
    ensures Word(m, f, k) == Word(m0, f, k) && f in role && role[f] == Orphan(role0[f], f, d)
  {
    assert (ENTRIES * f + k) / ENTRIES == f;
  }

  lemma FrameAddress(f: nat)
    ensures PAGE * f / PAGE == f && PAGE * f % PAGE == 0
  {
  }

  lemma KeepsCompose(m: seq<nat>, m1: seq<nat>, m2: seq<nat>, role: map<nat, Role>, role1: map<nat, Role>)
    requires KeepsTranslations(m, m1, role) && KeepsTranslations(m1, m2, role1)
    requires forall f :: IsDirectory(role, f) ==> IsDirectory(role1, f)
    ensures KeepsTranslations(m, m2, role)
  {
  }

  /** The walk of get_physaddr, entry by entry. */
  lemma TranslateIs(lay: Layout, m: seq<nat>, role: map<nat, Role>, d: nat, va: nat)
    requires Structure(lay, m, role) && IsDirectory(role, d) && va < 0x1_0000_0000
    ensures va / 0x40_0000 < ENTRIES && d < lay.last
    ensures var e := Word(m, d, va / 0x40_0000);
      && (e == 0 ==> Translate(m, d, va) == None)
      && (e != 0 ==>
        var w := if e / PAGE < lay.last then Word(m, e / PAGE, va / PAGE % ENTRIES) else 0;
        && e / PAGE < lay.last
        && Translate(m, d, va) == if w == 0 then None else Some(w / PAGE * PAGE + va % PAGE))
  {
    TableInMemory(lay, m, role, d, va / 0x40_0000);
  }
}
