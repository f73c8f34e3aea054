/**
 * Copying between the debugger and the memory that the debugged program sees
 * (kernel/gdb_serial_support.c): paging is off while the copy runs, so every chunk is translated by
 * walking the client's page tables, with 4K pages and 4M superpages.
 */
module ClientMemory {
  import opened Wrappers
  import opened Arithmetic
  import opened Bytes

  const PAGE: nat := 0x1000
  const SUPERPAGE: nat := 0x40_0000

  /** Physical memory, one byte an address; the client's paging registers. */
  datatype Paging = Paging(cr0: nat, cr3: nat)

  type byte = b: nat | b < 0x100

  /** Physical memory is a byte for every 32-bit address. */
  predicate IsMemory(m: seq<byte>) {
    |m| == TWO_32
  }

  /** A 32-bit little-endian word. */
  function WordAt(m: seq<byte>, a: nat): (w: nat)
    requires a + 4 <= |m|
    ensures w < TWO_32
  {
    m[a] as nat + 0x100 * (m[a + 1] as nat) + 0x1_0000 * (m[a + 2] as nat) + 0x100_0000 * (m[a + 3] as nat)
  }

  /** Where entry i of the directory or table of a given register or entry lies. */
  function EntryAddress(base: nat, i: nat): (a: nat)
    requires base < TWO_32 && i < 1024
    ensures a + 4 <= TWO_32
  {
    base / PAGE * PAGE + 4 * i
  }

  predicate PagingOn(p: Paging) {
    p.cr0 / 0x8000_0000 % 2 == 1
  }

  predicate Valid(e: nat) { e % 2 == 1 }             // INTEL_PDE_VALID, INTEL_PTE_VALID

  predicate IsSuperpage(e: nat) { e / 0x80 % 2 == 1 }  // INTEL_PDE_SUPERPAGE

  /** The byte of the frame of an entry with the offset that va has in its page. */
  function PageByte(e: nat, va: nat): (a: nat)
    requires e < TWO_32
    ensures a < TWO_32
  {
    e / PAGE * PAGE + va % PAGE
  }

  function SuperpageByte(e: nat, va: nat): (a: nat)
    requires e < TWO_32
    ensures a < TWO_32
  {
    e / SUPERPAGE * SUPERPAGE + va % SUPERPAGE
  }

  /** The physical address of one virtual byte, as the processor would find it. */
  function Translate(m: seq<byte>, p: Paging, va: nat): Option<nat>
    requires IsMemory(m) && p.cr3 < TWO_32 && va < TWO_32
  {
    if !PagingOn(p) then Some(va) else
    var pde := WordAt(m, EntryAddress(p.cr3, va / SUPERPAGE));
    if !Valid(pde) then None
    else if IsSuperpage(pde) then Some(SuperpageByte(pde, va))
    else
      var pte := WordAt(m, EntryAddress(pde, va / PAGE % 1024));
      if !Valid(pte) then None else Some(PageByte(pte, va))
  }

  /** Address of byte i of a block: addresses wrap at 32 bits. */
  function At(va: nat, i: nat): (a: nat)
    ensures a < TWO_32
  {
    (va + i) % TWO_32
  }

  function ByteAddress(m: seq<byte>, p: Paging, va: nat, i: nat): Option<nat>
    requires IsMemory(m) && p.cr3 < TWO_32
  {
    Translate(m, p, At(va, i))
  }

  ghost predicate Mapped(m: seq<byte>, p: Paging, va: nat, i: nat)
    requires IsMemory(m) && p.cr3 < TWO_32
  {
    ByteAddress(m, p, va, i).Some?
  }

  /** A word whose bytes are stored lowest first is read as that word. */
  lemma StoredWord(m: seq<byte>, a: nat, w: nat)
    requires a + 4 <= |m| && w < 0x1_0000_0000 && forall k: nat :: k < 4 ==> m[a + k] == LittleEndian(w, k)
    ensures WordAt(m, a) == w
  {
    assert m[a] == LittleEndian(w, 0) && m[a + 1] == LittleEndian(w, 1);
    assert m[a + 2] == LittleEndian(w, 2) && m[a + 3] == LittleEndian(w, 3);
    FourDigits(w, w / 0x100, w / 0x1_0000, w / 0x100_0000);
  }

  lemma FourDigits(w: nat, q1: nat, q2: nat, q3: nat)
    requires w < 0x1_0000_0000 && q1 == w / 0x100 && q2 == w / 0x1_0000 && q3 == w / 0x100_0000
    ensures w % 0x100 + 0x100 * (q1 % 0x100) + 0x1_0000 * (q2 % 0x100) + 0x100_0000 * (q3 % 0x100) == w
  {
    assert q2 == q1 / 0x100 && q3 == q2 / 0x100 && q3 < 0x100;
    assert q1 == 0x100 * q2 + q1 % 0x100 && q2 == 0x100 * q3 + q2 % 0x100;
  }

  /**
   * The walk in figures: bit 31 of cr0 switches paging on, bit 0 of an entry says that it is present,
   * bit 7 of a directory entry that it maps 4M by itself; no other bit below bit 12 is looked at.
   */
  lemma TranslateBits(m: seq<byte>, p: Paging, va: nat)
    requires IsMemory(m) && p.cr3 < 0x1_0000_0000 && va < 0x1_0000_0000
    ensures p.cr0 / 0x8000_0000 % 2 == 0 ==> Translate(m, p, va) == Some(va)
    ensures p.cr0 / 0x8000_0000 % 2 == 1 ==>
      var directory := p.cr3 / 0x1000 * 0x1000 + 4 * (va / 0x40_0000);
      directory + 4 <= |m| &&
      var pde := WordAt(m, directory);
      && (pde % 2 == 0 ==> Translate(m, p, va) == None)
      && (pde % 2 == 1 && pde / 0x80 % 2 == 1 ==>
            Translate(m, p, va) == Some(pde / 0x40_0000 * 0x40_0000 + va % 0x40_0000))
      && (pde % 2 == 1 && pde / 0x80 % 2 == 0 ==>
            var table := pde / 0x1000 * 0x1000 + 4 * (va / 0x1000 % 1024);
            table + 4 <= |m| &&
            var pte := WordAt(m, table);
            Translate(m, p, va) == if pte % 2 == 0 then None else Some(pte / 0x1000 * 0x1000 + va % 0x1000))
  {
    assert EntryAddress(p.cr3, va / SUPERPAGE) == p.cr3 / 0x1000 * 0x1000 + 4 * (va / 0x40_0000);
    var pde := WordAt(m, EntryAddress(p.cr3, va / SUPERPAGE));
    assert EntryAddress(pde, va / PAGE % 1024) == pde / 0x1000 * 0x1000 + 4 * (va / 0x1000 % 1024);
  }

  /** An entry that the processor has marked as accessed still designates its table: an address mapped by a 4K page. */
  lemma AccessedTable(m: seq<byte>, p: Paging)
    requires IsMemory(m) && p.cr0 / 0x8000_0000 % 2 == 1 && p.cr3 == 0x0800_0000
    requires WordAt(m, 0x0800_0400) == 0x0800_1027 && WordAt(m, 0x0800_1000) == 0x0800_2067
    ensures Translate(m, p, 0x4000_0000) == Some(0x0800_2000)
  {
    TranslateBits(m, p, 0x4000_0000);
  }

  /** Addresses of the block and of the bytes of a chunk are counted modulo 2^32. */
  lemma AtFigures(va: nat, i: nat)
    ensures At(va, i) == (va + i) % 0x1_0000_0000
    ensures va + i < 0x1_0000_0000 ==> At(va, i) == va + i
  {
  }

  /** Addresses share their page or superpage up to its end. */
  lemma SamePage(va: nat, o: nat, size: nat)
    requires size > 0 && o < size - va % size
    ensures (va + o) / size == va / size && (va + o) % size == va % size + o
  {
    DivModUnique(va + o, size, va / size, va % size + o);
  }

  lemma SameSuperpage(va: nat, va': nat)
    requires va / PAGE == va' / PAGE
    ensures va / SUPERPAGE == va' / SUPERPAGE
  {
    var page := va / PAGE;
    DivModUnique(va, SUPERPAGE, page / 1024, page % 1024 * PAGE + va % PAGE);
    DivModUnique(va', SUPERPAGE, page / 1024, page % 1024 * PAGE + va' % PAGE);
  }

  /** The last address of a page or superpage is still a 32-bit address. */
  lemma FrameFits(e: nat, r: nat)
    requires e < TWO_32
    ensures r < PAGE ==> e / PAGE * PAGE + r < TWO_32
    ensures r < SUPERPAGE ==> e / SUPERPAGE * SUPERPAGE + r < TWO_32
  {
  }

  /** Inside a page the physical addresses follow each other. */
  lemma TranslateInPage(m: seq<byte>, p: Paging, va: nat, o: nat)
    requires IsMemory(m) && p.cr3 < TWO_32 && va < TWO_32 && Translate(m, p, va).Some? && PagingOn(p)
    requires var pde := WordAt(m, EntryAddress(p.cr3, va / SUPERPAGE));
      o < if IsSuperpage(pde) then SUPERPAGE - va % SUPERPAGE else PAGE - va % PAGE
    ensures va + o < TWO_32 && Translate(m, p, va).value + o < TWO_32
    ensures Translate(m, p, va + o) == Some(Translate(m, p, va).value + o)
  {
    var pde := WordAt(m, EntryAddress(p.cr3, va / SUPERPAGE));
    if IsSuperpage(pde) {
      SamePage(va, o, SUPERPAGE);
      FrameFits(va, va % SUPERPAGE + o);
      FrameFits(pde, va % SUPERPAGE + o);
    } else {
      SamePage(va, o, PAGE);
      SameSuperpage(va, va + o);
      FrameFits(va, va % PAGE + o);
      FrameFits(WordAt(m, EntryAddress(pde, va / PAGE % 1024)), va % PAGE + o);
    }
  }

  /** The bytes from va to the end of its page or superpage; all there can be without paging. */
  function RestOfPage(m: seq<byte>, p: Paging, va: nat): nat
    requires IsMemory(m) && p.cr3 < 0x1_0000_0000 && va < 0x1_0000_0000
  {
    if p.cr0 / 0x8000_0000 % 2 == 0 then 0xffff_ffff else
    assert EntryAddress(p.cr3, va / SUPERPAGE) == p.cr3 / 0x1000 * 0x1000 + 4 * (va / 0x40_0000);
    if WordAt(m, p.cr3 / 0x1000 * 0x1000 + 4 * (va / 0x40_0000)) / 0x80 % 2 == 1 then 0x40_0000 - va % 0x40_0000
    else 0x1000 - va % 0x1000
  }

  /** The chunk of len bytes at va lies at paddr in physical memory. */
  ghost predicate ChunkAt(m: seq<byte>, p: Paging, va: nat, paddr: nat, len: nat)
    requires IsMemory(m) && p.cr3 < TWO_32
  {
    forall o: nat :: o < len ==> ByteAddress(m, p, va, o) == Some(At(paddr, o))
  }

  /** phys_addr_lookup: the physical address, and how many bytes follow it before the end of the page. */
  method PhysAddrLookup(m: array<byte>, p: Paging, vaddr: nat) returns (paddr: nat, len: nat)
    requires m.Length == TWO_32 && p.cr3 < TWO_32 && vaddr < TWO_32
    ensures len == 0 <==> !Mapped(m[..], p, vaddr, 0)
    ensures paddr < TWO_32 && ChunkAt(m[..], p, vaddr, paddr, len)
    ensures len > 0 ==> len == RestOfPage(m[..], p, vaddr)
  {
    ghost var mem := m[..];
    NoWrap(vaddr, 0);
    assert ByteAddress(mem, p, vaddr, 0) == Translate(mem, p, vaddr);
    var pde := LoadWord(m, EntryAddress(p.cr3, vaddr / SUPERPAGE));
    if !PagingOn(p) {
      FlatChunk(mem, p, vaddr, 0xffff_ffff);
      return vaddr, 0xffff_ffff;
    }
    paddr, len := 0, 0;
    if !Valid(pde) {
      return;
    }
    if !IsSuperpage(pde) {
      var pte := LoadWord(m, EntryAddress(pde, vaddr / PAGE % 1024));
      var offs := vaddr % PAGE;
      if !Valid(pte) {
        return;
      }
      paddr := pte / PAGE * PAGE + offs;
      len := PAGE - offs;
    } else {
      var offs := vaddr % SUPERPAGE;
      paddr := pde / SUPERPAGE * SUPERPAGE + offs;
      len := SUPERPAGE - offs;
    }
    ChunkInPage(mem, p, vaddr, paddr, len);
  }

  /** Without paging virtual addresses are physical. */
  lemma FlatChunk(m: seq<byte>, p: Paging, va: nat, len: nat)
    requires IsMemory(m) && p.cr3 < TWO_32 && !PagingOn(p)
    ensures ChunkAt(m, p, va, va, len)
  {
  }

  method LoadWord(m: array<byte>, a: nat) returns (w: nat)
    requires a + 4 <= m.Length
    ensures w == WordAt(m[..], a)
  {
    w := m[a] as nat + 0x100 * (m[a + 1] as nat) + 0x1_0000 * (m[a + 2] as nat) + 0x100_0000 * (m[a + 3] as nat);
  }

  lemma ChunkInPage(m: seq<byte>, p: Paging, va: nat, paddr: nat, len: nat)
    requires IsMemory(m) && p.cr3 < TWO_32 && va < TWO_32 && PagingOn(p) && Translate(m, p, va) == Some(paddr)
    requires var pde := WordAt(m, EntryAddress(p.cr3, va / SUPERPAGE));
      len == if IsSuperpage(pde) then SUPERPAGE - va % SUPERPAGE else PAGE - va % PAGE
    ensures ChunkAt(m, p, va, paddr, len)
  {
    forall o: nat | o < len
      ensures ByteAddress(m, p, va, o) == Some(At(paddr, o))
    {
      TranslateInPage(m, p, va, o);
      NoWrap(va, o);
      NoWrap(paddr, o);
    }
  }

  lemma NoWrap(va: nat, o: nat)
    requires va + o < TWO_32
    ensures At(va, o) == va + o
  {
  }

  lemma AtPlus(va: nat, i: nat, o: nat)
    ensures At(At(va, i), o) == At(va, i + o)
  {
  }

  /** Bytes i0.. of the block are bytes 0.. of the chunk. */
  lemma ChunkOfBlock(m: seq<byte>, p: Paging, va: nat, i0: nat, paddr: nat, len: nat, i: nat)
    requires IsMemory(m) && p.cr3 < TWO_32 && ChunkAt(m, p, At(va, i0), paddr, len) && i0 <= i < i0 + len
    ensures ByteAddress(m, p, va, i) == Some(At(paddr, i - i0))
  {
    AtPlus(va, i0, i - i0);
    assert ByteAddress(m, p, At(va, i0), i - i0) == Some(At(paddr, i - i0));
  }

  // ---------------------------------------------------------------- reading the client

  /** Every byte of the block up to and including byte i is mapped. */
  ghost predicate MappedUpTo(m: seq<byte>, p: Paging, va: nat, n: nat)
    requires IsMemory(m) && p.cr3 < TWO_32
  {
    forall i: nat :: i < n ==> Mapped(m, p, va, i)
  }

  /** The first n bytes of the buffer are those of the client's block. */
  ghost predicate Copied(m: seq<byte>, p: Paging, va: nat, dest: seq<byte>, n: nat)
    requires IsMemory(m) && p.cr3 < TWO_32 && n <= |dest|
  {
    forall i: nat :: i < n ==> HasByte(m, p, va, i, dest[i])
  }

  /** Byte i of the client's block is mapped and is b. */
  ghost predicate HasByte(m: seq<byte>, p: Paging, va: nat, i: nat, b: byte)
    requires IsMemory(m) && p.cr3 < TWO_32
  {
    match ByteAddress(m, p, va, i)
    case Some(a) => a < TWO_32 && m[a] == b
    case None => false
  }

  /** memcpy from physical memory. */
  method CopyFrom(m: array<byte>, paddr: nat, dest: array<byte>, at: nat, n: nat)
    requires m.Length == TWO_32 && dest != m && at + n <= dest.Length
    modifies dest
    ensures forall i :: 0 <= i < dest.Length ==>
      dest[i] == if at <= i < at + n then m[At(paddr, i - at)] else old(dest[i])
  {
    for k := 0 to n
      invariant forall i :: 0 <= i < dest.Length ==>
        dest[i] == if at <= i < at + k then m[At(paddr, i - at)] else old(dest[i])
    {
      dest[at + k] := m[At(paddr, k)];
    }
  }

  /**
   * gdb_copyin: succeeds exactly when every byte is mapped; in any case the bytes before the first
   * unmapped one have been copied and nothing after them.
   */
  method GdbCopyin(m: array<byte>, p: Paging, src: nat, dest: array<byte>, size: nat)
    returns (rc: int, ghost copied: nat)
    requires m.Length == TWO_32 && dest != m && p.cr3 < TWO_32 && src < TWO_32 && size <= dest.Length
    modifies dest
    ensures rc == 0 || rc == -1
    ensures rc == 0 <==> MappedUpTo(m[..], p, src, size)
    ensures rc == 0 ==> copied == size
    ensures copied <= size && Copied(m[..], p, src, dest[..], copied)
    ensures copied < size ==> !Mapped(m[..], p, src, copied)
    ensures forall i :: copied <= i < dest.Length ==> dest[i] == old(dest[i])
  {
    var left: nat := size;
    var va := src;
    var at: nat := 0;
    ghost var mem := m[..];
    while left != 0
      invariant at + left == size && at <= dest.Length && va == At(src, at) && m[..] == mem
      invariant Copied(mem, p, src, dest[..], at)
      invariant forall i :: at <= i < dest.Length ==> dest[i] == old(dest[i])
      decreases left
    {
      var pa, sz := PhysAddrLookup(m, p, va);
      AtPlus(src, at, 0);
      if sz == 0 {
        assert !Mapped(mem, p, src, at);
        return -1, at;
      }
      if sz > left {
        sz := left;
      }
      CopyFrom(m, pa, dest, at, sz);
      forall i: nat | at <= i < at + sz
        ensures HasByte(mem, p, src, i, dest[i])
      {
        ChunkOfBlock(mem, p, src, at, pa, sz, i);
      }
      AtPlus(src, at, sz);
      left := left - sz;
      va := At(va, sz);
      at := at + sz;
    }
    CopiedIsMapped(mem, p, src, dest[..], size);
    return 0, size;
  }

  lemma CopiedIsMapped(m: seq<byte>, p: Paging, va: nat, dest: seq<byte>, n: nat)
    requires IsMemory(m) && p.cr3 < TWO_32 && n <= |dest| && Copied(m, p, va, dest, n)
    ensures MappedUpTo(m, p, va, n)
  {
    forall i: nat | i < n
      ensures Mapped(m, p, va, i)
    {
      assert HasByte(m, p, va, i, dest[i]);
    }
  }

  // ---------------------------------------------------------------- writing to the client

  /** The frame of the client's directory, or of one of its tables. */
  ghost predicate TableFrame(m: seq<byte>, p: Paging, f: nat)
    requires IsMemory(m) && p.cr3 < TWO_32
  {
    PagingOn(p) && (f == p.cr3 / PAGE || exists i: nat :: i < 1024 && TableOf(m, p, i) == Some(f))
  }

  ghost predicate TableByte(m: seq<byte>, p: Paging, a: nat)
    requires IsMemory(m) && p.cr3 < TWO_32
  {
    TableFrame(m, p, a / PAGE)
  }

  /** The frame of the table in entry i of the directory. */
  function TableOf(m: seq<byte>, p: Paging, i: nat): Option<nat>
    requires IsMemory(m) && p.cr3 < TWO_32 && i < 1024
  {
    var pde := WordAt(m, EntryAddress(p.cr3, i));
    if Valid(pde) && !IsSuperpage(pde) then Some(pde / PAGE) else None
  }

  /** No byte to be written is part of the paging structures. */
  ghost predicate TablesSpared(m: seq<byte>, p: Paging, va: nat, size: nat)
    requires IsMemory(m) && p.cr3 < TWO_32
  {
    forall i: nat :: i < size && Mapped(m, p, va, i) ==> !TableByte(m, p, ByteAddress(m, p, va, i).value)
  }

  ghost predicate SameTables(m: seq<byte>, m': seq<byte>, p: Paging)
    requires IsMemory(m) && p.cr3 < TWO_32 && |m'| == |m|
  {
    forall a: nat :: a < TWO_32 && TableByte(m, p, a) ==> m'[a] == m[a]
  }

  lemma SameWord(m: seq<byte>, m': seq<byte>, p: Paging, base: nat, i: nat)
    requires IsMemory(m) && p.cr3 < TWO_32 && |m'| == |m| && SameTables(m, m', p) && i < 1024 && base < TWO_32
    requires TableFrame(m, p, base / PAGE)
    ensures WordAt(m', EntryAddress(base, i)) == WordAt(m, EntryAddress(base, i))
  {
    var a := EntryAddress(base, i);
    InFrame(base, i);
    assert TableByte(m, p, a) && TableByte(m, p, a + 1) && TableByte(m, p, a + 2) && TableByte(m, p, a + 3);
  }

  lemma InFrame(base: nat, i: nat)
    requires i < 1024 && base < TWO_32
    ensures var a := EntryAddress(base, i);
      a / PAGE == base / PAGE && (a + 1) / PAGE == base / PAGE && (a + 2) / PAGE == base / PAGE
        && (a + 3) / PAGE == base / PAGE
  {
  }

  /** Translation depends on the paging structures only. */
  lemma SameTranslation(m: seq<byte>, m': seq<byte>, p: Paging, va: nat)
    requires IsMemory(m) && p.cr3 < TWO_32 && |m'| == |m| && SameTables(m, m', p) && va < TWO_32
    ensures Translate(m', p, va) == Translate(m, p, va)
  {
    if PagingOn(p) {
      var i := va / SUPERPAGE;
      SameWord(m, m', p, p.cr3, i);
      var pde := WordAt(m, EntryAddress(p.cr3, i));
      if Valid(pde) && !IsSuperpage(pde) {
        assert TableOf(m, p, i) == Some(pde / PAGE);
        SameWord(m, m', p, pde, va / PAGE % 1024);
      }
    }
  }

  /** Memory after the first n bytes have been stored, in order, at their translated addresses. */
  ghost function Written(m: seq<byte>, p: Paging, va: nat, src: seq<byte>, n: nat): (r: seq<byte>)
    requires IsMemory(m) && p.cr3 < TWO_32 && n <= |src|
    ensures |r| == |m|
  {
    if n == 0 then m else
    var r := Written(m, p, va, src, n - 1);
    match ByteAddress(m, p, va, n - 1)
    case Some(a) => if a < TWO_32 then r[a := src[n - 1]] else r
    case None => r
  }

  /** Nothing else changes: a physical address that no byte of the block translates to. */
  lemma {:induction false} WrittenElsewhere(m: seq<byte>, p: Paging, va: nat, src: seq<byte>, n: nat, a: nat)
    requires IsMemory(m) && p.cr3 < TWO_32 && n <= |src| && a < |m|
    requires forall i: nat :: i < n ==> ByteAddress(m, p, va, i) != Some(a)
    ensures Written(m, p, va, src, n)[a] == m[a]
  {
    if n != 0 {
      WrittenElsewhere(m, p, va, src, n - 1, a);
      assert ByteAddress(m, p, va, n - 1) != Some(a);
    }
  }

  lemma {:induction false} WrittenSparesTables(m: seq<byte>, p: Paging, va: nat, src: seq<byte>, n: nat)
    requires IsMemory(m) && p.cr3 < TWO_32 && n <= |src| && TablesSpared(m, p, va, n)
    ensures SameTables(m, Written(m, p, va, src, n), p)
  {
    if n != 0 {
      WrittenSparesTables(m, p, va, src, n - 1);
      assert Mapped(m, p, va, n - 1) ==> !TableByte(m, p, ByteAddress(m, p, va, n - 1).value);
    }
  }

  /** Byte i of the block, in the chunk that starts at byte n, lies in physical memory after paddr. */
  ghost predicate StoredAt(m: seq<byte>, p: Paging, va: nat, n: nat, paddr: nat, i: nat)
    requires IsMemory(m) && p.cr3 < TWO_32 && n <= i
  {
    ByteAddress(m, p, va, i) == Some(At(paddr, i - n))
  }

  /** Bytes n..n+len of the block lie at paddr. */
  ghost predicate BlockPart(m: seq<byte>, p: Paging, va: nat, n: nat, paddr: nat, len: nat)
    requires IsMemory(m) && p.cr3 < TWO_32
  {
    forall i: nat {:trigger StoredAt(m, p, va, n, paddr, i)} :: n <= i < n + len ==> StoredAt(m, p, va, n, paddr, i)
  }

  lemma FirstPart(m: seq<byte>, p: Paging, va: nat, n: nat, paddr: nat, len: nat, sz: nat)
    requires IsMemory(m) && p.cr3 < TWO_32 && BlockPart(m, p, va, n, paddr, len) && sz <= len
    ensures BlockPart(m, p, va, n, paddr, sz)
  {
  }

  /** The state of gdb_copyout when its first n bytes have been stored. */
  ghost predicate CopiedOut(m0: seq<byte>, m: seq<byte>, p: Paging, va: nat, src: seq<byte>, n: nat)
    requires IsMemory(m0) && p.cr3 < TWO_32 && n <= |src|
  {
    |m| == |m0| && m == Written(m0, p, va, src, n) && SameTables(m0, m, p) && MappedUpTo(m0, p, va, n)
  }

  /** The next chunk of the block, found in the memory written so far. */
  lemma NextChunk(m0: seq<byte>, m: seq<byte>, p: Paging, va: nat, src: seq<byte>, n: nat, pa: nat, len: nat)
    requires IsMemory(m0) && p.cr3 < TWO_32 && n <= |src| && CopiedOut(m0, m, p, va, src, n)
    requires ChunkAt(m, p, At(va, n), pa, len)
    ensures Mapped(m0, p, va, n) <==> Mapped(m, p, At(va, n), 0)
    ensures BlockPart(m0, p, va, n, pa, len)
  {
    OldChunk(m0, m, p, At(va, n), pa, len);
    AtPlus(va, n, 0);
    forall i: nat | n <= i < n + len
      ensures StoredAt(m0, p, va, n, pa, i)
    {
      ChunkOfBlock(m0, p, va, n, pa, len, i);
    }
  }

  lemma ChunkStored(m0: seq<byte>, m: seq<byte>, p: Paging, va: nat, src: seq<byte>, n: nat, sz: nat, paddr: nat)
    requires IsMemory(m0) && p.cr3 < TWO_32 && n + sz <= |src| && |m| == |m0| && m == Written(m0, p, va, src, n + sz)
    requires TablesSpared(m0, p, va, n + sz) && MappedUpTo(m0, p, va, n)
    requires BlockPart(m0, p, va, n, paddr, sz)
    ensures CopiedOut(m0, m, p, va, src, n + sz)
  {
    WrittenSparesTables(m0, p, va, src, n + sz);
    forall i: nat | i < n + sz
      ensures Mapped(m0, p, va, i)
    {
      assert n <= i ==> StoredAt(m0, p, va, n, paddr, i);
    }
  }

  /** memcpy to physical memory of bytes at..at+n of the source, a chunk of the client's block. */
  method CopyTo(m: array<byte>, paddr: nat, src: array<byte>, at: nat, n: nat, ghost m0: seq<byte>, ghost p: Paging,
    ghost va: nat)
    requires m.Length == TWO_32 && src != m && at + n <= src.Length
    requires IsMemory(m0) && p.cr3 < TWO_32 && BlockPart(m0, p, va, at, paddr, n)
    requires m[..] == Written(m0, p, va, src[..], at)
    modifies m
    ensures m[..] == Written(m0, p, va, src[..], at + n)
  {
    for k := 0 to n
      invariant m[..] == Written(m0, p, va, src[..], at + k)
    {
      assert StoredAt(m0, p, va, at, paddr, at + k);
      ghost var before := m[..];
      m[At(paddr, k)] := src[at + k];
      assert m[..] == before[At(paddr, k) := src[at + k]];
    }
  }

  /** gdb_copyout, when the block does not overlap the client's paging structures. */
  method GdbCopyout(m: array<byte>, p: Paging, src: array<byte>, dest: nat, size: nat)
    returns (rc: int, ghost copied: nat)
    requires m.Length == TWO_32 && src != m && p.cr3 < TWO_32 && dest < TWO_32 && size <= src.Length
    requires TablesSpared(m[..], p, dest, size)
    modifies m
    ensures rc == 0 || rc == -1
    ensures rc == 0 <==> MappedUpTo(old(m[..]), p, dest, size)
    ensures rc == 0 ==> copied == size
    ensures copied <= size && MappedUpTo(old(m[..]), p, dest, copied)
    ensures copied < size ==> !Mapped(old(m[..]), p, dest, copied)
    ensures m[..] == Written(old(m[..]), p, dest, src[..], copied)
    ensures SameTables(old(m[..]), m[..], p)
  {
    var left: nat := size;
    var va := dest;
    var at: nat := 0;
    ghost var m0 := m[..];
    while left != 0
      invariant at + left == size && va == At(dest, at)
      invariant CopiedOut(m0, m[..], p, dest, src[..], at)
      decreases left
    {
      var sz := CopyoutChunk(m, p, src, at, va, left, m0, dest);
      if sz == 0 {
        return -1, at;
      }
      AtPlus(dest, at, sz);
      left := left - sz;
      va := At(va, sz);
      at := at + sz;
    }
    return 0, size;
  }

  /**
   * One turn of the loop: as many of the bytes still to be copied as are mapped together, 0 if the
   * first is not mapped.
   */
  method CopyoutChunk(m: array<byte>, p: Paging, src: array<byte>, at: nat, va: nat, left: nat, ghost m0: seq<byte>,
    ghost dest: nat)
    returns (sz: nat)
    requires m.Length == TWO_32 && src != m && p.cr3 < TWO_32 && dest < TWO_32 && 0 < left && at + left <= src.Length
    requires IsMemory(m0) && TablesSpared(m0, p, dest, at + left) && va == At(dest, at)
    requires CopiedOut(m0, m[..], p, dest, src[..], at)
    modifies m
    ensures sz <= left && CopiedOut(m0, m[..], p, dest, src[..], at + sz)
    ensures sz == 0 <==> !Mapped(m0, p, dest, at)
    ensures sz == 0 ==> m[..] == old(m[..])
  {
    var pa, len := PhysAddrLookup(m, p, va);
    NextChunk(m0, m[..], p, dest, src[..], at, pa, len);
    sz := if len > left then left else len;
    if sz != 0 {
      FirstPart(m0, p, dest, at, pa, len, sz);
      SparedPart(m0, p, dest, at + left, at + sz);
      CopyTo(m, pa, src, at, sz, m0, p, dest);
      ChunkStored(m0, m[..], p, dest, src[..], at, sz, pa);
    }
  }

  lemma SparedPart(m: seq<byte>, p: Paging, va: nat, size: nat, n: nat)
    requires IsMemory(m) && p.cr3 < TWO_32 && TablesSpared(m, p, va, size) && n <= size
    ensures TablesSpared(m, p, va, n)
  {
  }

  /** A chunk found in the memory written so far is one of the original memory. */
  lemma OldChunk(m0: seq<byte>, m: seq<byte>, p: Paging, va: nat, pa: nat, len: nat)
    requires IsMemory(m0) && p.cr3 < TWO_32 && |m| == |m0| && SameTables(m0, m, p) && va < TWO_32
    requires ChunkAt(m, p, va, pa, len)
    ensures ChunkAt(m0, p, va, pa, len) && (Mapped(m0, p, va, 0) <==> Mapped(m, p, va, 0))
  {
    forall o: nat
      ensures ByteAddress(m, p, va, o) == ByteAddress(m0, p, va, o)
    {
      SameTranslation(m0, m, p, At(va, o));
    }
  }

  /** Different bytes of the block are different bytes of physical memory. */
  ghost predicate Unaliased(m: seq<byte>, p: Paging, va: nat, size: nat)
    requires IsMemory(m) && p.cr3 < TWO_32
  {
    forall i: nat, j: nat :: i < j < size && Mapped(m, p, va, i) ==>
      ByteAddress(m, p, va, i) != ByteAddress(m, p, va, j)
  }

  lemma {:induction false} WrittenHolds(m: seq<byte>, p: Paging, va: nat, src: seq<byte>, n: nat, i: nat)
    requires IsMemory(m) && p.cr3 < TWO_32 && i < n <= |src| && Unaliased(m, p, va, n) && MappedUpTo(m, p, va, n)
    requires forall j: nat :: j < n ==> ByteAddress(m, p, va, j).Some? ==> ByteAddress(m, p, va, j).value < TWO_32
    ensures Mapped(m, p, va, i) && Written(m, p, va, src, n)[ByteAddress(m, p, va, i).value] == src[i]
  {
    assert Mapped(m, p, va, i);
    assert Mapped(m, p, va, n - 1);
    if i < n - 1 {
      WrittenHolds(m, p, va, src, n - 1, i);
    }
  }

  lemma AddressInMemory(m: seq<byte>, p: Paging, va: nat)
    requires IsMemory(m) && p.cr3 < TWO_32 && va < TWO_32
    ensures Translate(m, p, va).Some? ==> Translate(m, p, va).value < TWO_32
  {
  }

  /** What gdb_copyout has written, gdb_copyin reads back. */
  method WriteThenRead(m: array<byte>, p: Paging, src: array<byte>, va: nat, dest: array<byte>, size: nat)
    requires m.Length == TWO_32 && src != m && dest != m && dest != src && p.cr3 < TWO_32 && va < TWO_32
    requires size <= src.Length && size <= dest.Length
    requires TablesSpared(m[..], p, va, size) && Unaliased(m[..], p, va, size) && MappedUpTo(m[..], p, va, size)
    modifies m, dest
    ensures forall i :: 0 <= i < size ==> dest[i] == src[i]
  {
    ghost var m0 := m[..];
    ghost var n;
    var rc;
    rc, n := GdbCopyout(m, p, src, va, size);
    ghost var m1 := m[..];
    forall i: nat | i < size
      ensures ByteAddress(m1, p, va, i) == ByteAddress(m0, p, va, i)
      ensures Mapped(m0, p, va, i) && ByteAddress(m0, p, va, i).value < TWO_32
    {
      SameTranslation(m0, m1, p, At(va, i));
      assert Mapped(m0, p, va, i);
      AddressInMemory(m0, p, At(va, i));
    }
    rc, n := GdbCopyin(m, p, va, dest, size);
    forall i: nat | i < size
      ensures dest[i] == src[i]
    {
      assert HasByte(m1, p, va, i, dest[i]);
      WrittenHolds(m0, p, va, src[..], size, i);
    }
  }
}
