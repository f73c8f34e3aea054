/**
 * The page tables that kernel/mapping.c writes, seen by whoever walks them by the present bits: the
 * processor (section 3.6.2 of the Intel manual) and the debugger's lookup (kernel/gdb_serial_support.c).
 * The two models of memory meet here: words for the kernel, bytes for the walk.
 */
module HardwareWalk {
  import opened Wrappers
  import opened Bytes
  import PhysicalMemory
  import ClientMemory
  import PageTables
  import CodePages

  type Memory = seq<ClientMemory.byte>

  /** The bytes of a memory of 2^32 bytes that begins with these words. */
  ghost predicate Holds(b: Memory, m: seq<nat>) {
    && |b| == 0x1_0000_0000 && 4 * |m| <= |b|
    && forall x: nat {:trigger HoldsWord(b, m, x)} :: x < |m| ==> HoldsWord(b, m, x)
  }

  ghost predicate HoldsWord(b: Memory, m: seq<nat>, x: nat)
    requires x < |m| && 4 * |m| <= |b|
  {
    m[x] < 0x1_0000_0000 && forall k: nat :: k < 4 ==> b[4 * x + k] == LittleEndian(m[x], k)
  }

  lemma WordRead(b: Memory, m: seq<nat>, x: nat)
    requires Holds(b, m) && x < |m|
    ensures m[x] < 0x1_0000_0000 && ClientMemory.WordAt(b, 4 * x) == m[x]
  {
    assert HoldsWord(b, m, x);
    ClientMemory.StoredWord(b, 4 * x, m[x]);
  }

  /** Paging switched on, with the directory in frame d. */
  function Registers(cr0: nat, d: nat): ClientMemory.Paging {
    ClientMemory.Paging(cr0, 0x1000 * d)
  }

  /** A directory entry is empty or present and no superpage; an entry of its table is empty or present. */
  ghost predicate PresentPath(m: seq<nat>, d: nat, va: nat) {
    var i, j := va / 0x40_0000, va / 0x1000 % 1024;
    1024 * d + i < |m| &&
    var e := m[1024 * d + i];
    e != 0 ==>
      && e % 2 == 1 && e / 0x80 % 2 == 0 && 1024 * (e / 0x1000) + j < |m|
      && var w := m[1024 * (e / 0x1000) + j]; w != 0 ==> w % 2 == 1
  }

  /** Where entries that are not 0 have the present bit, get_physaddr and the processor translate alike. */
  lemma SameWalk(b: Memory, m: seq<nat>, cr0: nat, d: nat, va: nat)
    requires Holds(b, m) && d < 0x10_0000 && va < 0x1_0000_0000 && cr0 / 0x8000_0000 % 2 == 1
    requires PresentPath(m, d, va)
    ensures ClientMemory.Translate(b, Registers(cr0, d), va) == PhysicalMemory.Translate(m, d, va)
  {
    var i, j := va / 0x40_0000, va / 0x1000 % 1024;
    var e := m[1024 * d + i];
    ClientMemory.TranslateBits(b, Registers(cr0, d), va);
    WordRead(b, m, 1024 * d + i);
    assert 0x1000 * d / 0x1000 == d;
    assert 0x1000 * d / 0x1000 * 0x1000 + 4 * i == 4 * (1024 * d + i);
    if e != 0 {
      WordRead(b, m, 1024 * (e / 0x1000) + j);
      assert e / 0x1000 * 0x1000 + 4 * j == 4 * (1024 * (e / 0x1000) + j);
    }
  }

  /** Both entries on the way to va are present, writable and accessible to user code, and the page is frame u. */
  ghost predicate UserReachable(m: seq<nat>, d: nat, va: nat, u: nat) {
    var i, j := va / 0x40_0000, va / 0x1000 % 1024;
    1024 * d + i < |m| &&
    var e := m[1024 * d + i];
    && e % 2 == 1 && e / 2 % 2 == 1 && e / 4 % 2 == 1 && e / 0x80 % 2 == 0 && 1024 * (e / 0x1000) + j < |m|
    && var w := m[1024 * (e / 0x1000) + j];
       w % 2 == 1 && w / 2 % 2 == 1 && w / 4 % 2 == 1 && w / 0x1000 == u
  }

  /** Flags of 7 at both levels are these three bits. */
  lemma FlagsOfSeven(m: seq<nat>, d: nat, va: nat, u: nat)
    requires var i, j := va / 0x40_0000, va / 0x1000 % 1024;
      1024 * d + i < |m| && m[1024 * d + i] % 0x1000 == 7
      && 1024 * (m[1024 * d + i] / 0x1000) + j < |m| && m[1024 * (m[1024 * d + i] / 0x1000) + j] == 0x1000 * u + 7
    ensures UserReachable(m, d, va, u) && PresentPath(m, d, va)
  {
    var e := m[1024 * d + va / 0x40_0000];
    assert e == 0x1000 * (e / 0x1000) + 7;
    SevenBits(e / 0x1000);
    SevenBits(u);
  }

  lemma SevenBits(f: nat)
    ensures var w := 0x1000 * f + 7;
      w % 2 == 1 && w / 2 % 2 == 1 && w / 4 % 2 == 1 && w / 0x80 % 2 == 0 && w / 0x1000 == f
  {
    var w := 0x1000 * f + 7;
    assert w == 2 * (0x800 * f + 3) + 1;
    assert w / 2 == 2 * (0x400 * f + 1) + 1;
    assert w / 4 == 2 * (0x200 * f) + 1;
    assert w / 0x80 == 2 * (0x10 * f);
  }

  /** What the processor finds at such an address. */
  lemma ReachableByWalk(b: Memory, m: seq<nat>, cr0: nat, d: nat, va: nat, u: nat)
    requires Holds(b, m) && d < 0x10_0000 && va < 0x1_0000_0000 && cr0 / 0x8000_0000 % 2 == 1
    requires UserReachable(m, d, va, u)
    ensures ClientMemory.Translate(b, Registers(cr0, d), va) == Some(u * 0x1000 + va % 0x1000)
  {
    SameWalk(b, m, cr0, d, va);
  }

  /** map_page with the flags PAGE_TABLE_USR_RW makes the frame reachable for the processor. */
  method MapForUser(mem: PageTables.Machine, pdir: nat, va: nat, pa: nat)
    requires mem.Valid() && PhysicalMemory.IsDirectory(mem.role, pdir)
    requires 64 <= va / 0x40_0000 && va < 0x1_0000_0000
    requires pa / 0x1000 in mem.role && mem.role[pa / 0x1000].Raw?
    requires PhysicalMemory.Translate(mem.words[..], pdir, va) == None
    requires var e := PhysicalMemory.Word(mem.words[..], pdir, va / 0x40_0000);
      if e == 0 then mem.free != [] else e % 0x1000 == 7
    modifies mem, mem.words
    ensures mem.Valid() && UserReachable(mem.words[..], pdir, va, pa / 0x1000)
    ensures forall b, cr0 :: Holds(b, mem.words[..]) && cr0 / 0x8000_0000 % 2 == 1 ==>
      ClientMemory.Translate(b, Registers(cr0, pdir), va) == Some(pa / 0x1000 * 0x1000 + va % 0x1000)
  {
    ghost var m, free := mem.words[..], mem.free;
    OtherFrames(mem.lay, m, mem.freelist, free, mem.role, pdir, va / 0x40_0000);
    MapWords(mem, pdir, va, pa);
    MappedIsReachable(m, mem.words[..], free, pdir, va, pa);
    ReachableByEveryWalk(mem.words[..], pdir, va, pa / 0x1000);
  }

  method MapWords(mem: PageTables.Machine, pdir: nat, va: nat, pa: nat)
    requires mem.Valid() && PhysicalMemory.IsDirectory(mem.role, pdir)
    requires 64 <= va / 0x40_0000 && va < 0x1_0000_0000
    requires pa / 0x1000 in mem.role && mem.role[pa / 0x1000].Raw?
    requires PhysicalMemory.Translate(mem.words[..], pdir, va) == None
    requires mem.free != [] || PhysicalMemory.Word(mem.words[..], pdir, va / 0x40_0000) != 0
    modifies mem, mem.words
    ensures mem.Valid()
    ensures PageTables.MappedWords(old(mem.words[..]), mem.words[..], old(mem.free), pdir, va / 0x40_0000,
      va / 0x1000 % 1024, pa / 0x1000 * 0x1000 + 7)
  {
    mem.MapPage(pdir, va, pa, 7);
  }

  /** The table of an entry is not the directory itself. */
  lemma OtherFrames(lay: PhysicalMemory.Layout, m: seq<nat>, head: nat, free: seq<nat>,
    role: map<nat, PhysicalMemory.Role>, d: nat, i: nat)
    requires PhysicalMemory.Wf(lay, m, head, free, role) && PhysicalMemory.IsDirectory(role, d) && 64 <= i < 1024
    ensures d < 0x10_0000 && 1024 * d + i < |m|
    ensures if m[1024 * d + i] == 0 then free != [] ==> free[0] != d else m[1024 * d + i] / 0x1000 != d
  {
    assert PhysicalMemory.Placed(lay, m, role, d) && PhysicalMemory.EntryOk(lay, m, role, d, i);
    assert free != [] ==> free[0] in free;
  }

  lemma MappedIsReachable(m: seq<nat>, m': seq<nat>, free: seq<nat>, d: nat, va: nat, pa: nat)
    requires va < 0x1_0000_0000
    requires PageTables.MappedWords(m, m', free, d, va / 0x40_0000, va / 0x1000 % 1024, pa / 0x1000 * 0x1000 + 7)
    requires var e := m[1024 * d + va / 0x40_0000];
      if e == 0 then free != [] && free[0] != d else e % 0x1000 == 7 && e / 0x1000 != d
    ensures UserReachable(m', d, va, pa / 0x1000)
  {
    AfterMapping(m, m', free, d, va / 0x40_0000, va / 0x1000 % 1024, pa / 0x1000);
    FlagsOfSeven(m', d, va, pa / 0x1000);
  }

  lemma AfterMapping(m: seq<nat>, m': seq<nat>, free: seq<nat>, d: nat, i: nat, j: nat, u: nat)
    requires PageTables.MappedWords(m, m', free, d, i, j, 0x1000 * u + 7) && i < 1024 && j < 1024
    requires var e := m[1024 * d + i];
      if e == 0 then free != [] && free[0] != d else e % 0x1000 == 7 && e / 0x1000 != d
    ensures 1024 * d + i < |m'| && m'[1024 * d + i] % 0x1000 == 7
    ensures var t := m'[1024 * d + i] / 0x1000; 1024 * t + j < |m'| && m'[1024 * t + j] == 0x1000 * u + 7
  {
  }

  lemma ReachableByEveryWalk(m: seq<nat>, d: nat, va: nat, u: nat)
    requires d < 0x10_0000 && va < 0x1_0000_0000 && UserReachable(m, d, va, u)
    ensures forall b, cr0 :: Holds(b, m) && cr0 / 0x8000_0000 % 2 == 1 ==>
      ClientMemory.Translate(b, Registers(cr0, d), va) == Some(u * 0x1000 + va % 0x1000)
  {
    forall b, cr0 | Holds(b, m) && cr0 / 0x8000_0000 % 2 == 1
      ensures ClientMemory.Translate(b, Registers(cr0, d), va) == Some(u * 0x1000 + va % 0x1000)
    {
      ReachableByWalk(b, m, cr0, d, va, u);
    }
  }

  /** Byte x of an image as loaded: zero from its end on. */
  function ImageByte(code: seq<nat>, x: nat): ClientMemory.byte
    requires AllBytes(code)
  {
    if x < |code| then assert IsByte(code[x]); code[x] else 0
  }

  /** A loaded image, as the processor and the debugger read it: byte x of the code at 0x40000000 + x. */
  lemma ImageSeen(b: Memory, cr0: nat, m0: seq<nat>, role0: map<nat, PhysicalMemory.Role>, m: seq<nat>,
    role: map<nat, PhysicalMemory.Role>, d: nat, frames: seq<nat>, code: seq<nat>, x: nat)
    requires CodePages.Progress(m0, role0, m, role, d, frames, code, |frames|) && x < 0x1000 * |frames|
    requires Holds(b, m) && d < 0x10_0000 && cr0 / 0x8000_0000 % 2 == 1 && AllBytes(code)
    requires 0x4000_0000 + x < 0x1_0000_0000
    ensures ClientMemory.HasByte(b, Registers(cr0, d), 0x4000_0000, x, ImageByte(code, x))
  {
    var va := 0x4000_0000 + x;
    CodePages.ImageReadable(m0, role0, m, role, d, frames, code, x);
    var a := PhysicalMemory.Translate(m, d, va).value;
    FlagsOfSeven(m, d, va, a / 0x1000);
    SameWalk(b, m, cr0, d, va);
    assert HoldsWord(b, m, a / 4);
    assert b[4 * (a / 4) + a % 4] == LittleEndian(m[a / 4], a % 4);
    ClientMemory.AtFigures(0x4000_0000, x);
  }
}
