// The identity-mapped page table that src/memory.c builds at start-up, in the
// two-level format of 32-bit paging (Intel SDM Vol. 3A, section 4.3).
module Paging {
  import opened Words

  const TABLE_REACH := 0x40_0000          // bytes that one page table maps
  const PRESENT_WRITE := 3                // PAGE_TABLE_PRESENT | PAGE_TABLE_WRITE
  const PRESENT_WRITE_USER := 7           // PAGE_FRAME_PRESENT | _WRITE | _USER
  const HEAP_SIZE := 0x2_0000
  const ADDRESS_WORDS := 0x4000_0000

  datatype Translation = NotPresent | Mapped(physical: int, writable: bool)

  // align4k of src/common.c
  function Align4k(x: int): (r: int)
    ensures x <= r < x + PAGE && r % PAGE == 0
  {
    if x % PAGE != 0 then x - x % PAGE + PAGE else x
  }

  // The word of physical memory at an address.
  function WordAt(addr: int): int {
    addr / 4
  }

  // How many page tables map the first n pages.
  function TablesFor(n: nat): nat {
    (n + 1023) / 1024
  }

  // What the processor makes of a directory entry and a table entry.
  function Walked(pde: u32, pte: u32, addr: int): Translation
  {
    if pde % 2 == 0 || pte % 2 == 0 then NotPresent
    else Mapped(pte - pte % PAGE + addr % PAGE, pde / 2 % 2 == 1 && pte / 2 % 2 == 1)
  }

  // The walk the processor makes for an address, given the directory's address.
  function Translate(m: seq<u32>, dir: int, addr: int): Translation
    requires |m| == ADDRESS_WORDS && 0 <= dir && dir + PAGE <= TWO32 && 0 <= addr < TWO32
  {
    var pde := m[WordAt(dir) + addr / TABLE_REACH];
    if pde % 2 == 0 then NotPresent
    else Walked(pde, m[WordAt(pde - pde % PAGE) + addr / PAGE % 1024], addr)
  }

  // Directory entry k, and the word p words behind the directory.
  function DirWord(m: seq<u32>, dir: int, k: int): u32
    requires 0 <= WordAt(dir) + k < |m|
  {
    m[WordAt(dir) + k]
  }

  function PageWord(m: seq<u32>, dir: int, p: int): u32
    requires 0 <= WordAt(dir) + 1024 + p < |m|
  {
    m[WordAt(dir) + 1024 + p]
  }

  // The directory at `dir` followed at once by tables that identity-map the first
  // n pages and nothing else: directory entry k names table k, and the word for
  // page p comes p words behind the directory.
  ghost predicate IdentityMaps(m: seq<u32>, dir: int, n: nat) {
    && |m| == ADDRESS_WORDS && 0 <= dir && dir % PAGE == 0
    && n <= 0x10_0000
    && dir + PAGE * (1 + TablesFor(n)) <= TWO32
    && (forall k :: 0 <= k < 1024 ==>
          DirWord(m, dir, k) == if k < TablesFor(n) then dir + 4096 * (k + 1) + PRESENT_WRITE else 0)
    && (forall p :: 0 <= p < 1024 * TablesFor(n) ==>
          PageWord(m, dir, p) == if p < n then 4096 * p + PRESENT_WRITE_USER else 0)
  }

  lemma PageNumber(p: int)
    ensures 4096 * p % PAGE == 0 && 4096 * p / PAGE == p && WordAt(4096 * p) == 1024 * p
  {
  }

  lemma TableIndex(dir: int, p: nat)
    requires 0 <= dir && dir % 4096 == 0
    ensures WordAt(dir + 4096 * (p / 1024 + 1)) + p % 1024 == WordAt(dir) + 1024 + p
  {
    hide WordAt;
    PageNumber(dir / 4096);
    PageNumber(dir / 4096 + p / 1024 + 1);
  }

  lemma Flags(base: int, f: nat)
    requires base % 4096 == 0 && f < 4096 && f % 4 == 3
    ensures (base + f) % 2 == 1 && (base + f) - (base + f) % 4096 == base && (base + f) / 2 % 2 == 1
  {
    LowBits(base + f, 1024 * (base / 4096) + f / 4);
    PageOf(base, f);
  }

  lemma LowBits(x: int, r: int)
    requires x == 4 * r + 3
    ensures x % 2 == 1 && x / 2 % 2 == 1
  {
    assert x / 2 == 2 * r + 1;
  }

  lemma PageOf(base: int, f: nat)
    requires base % 4096 == 0 && f < 4096
    ensures (base + f) % 4096 == f
  {
  }

  lemma AddressParts(addr: nat)
    ensures addr / TABLE_REACH == addr / PAGE / 1024
    ensures addr == 4096 * (addr / PAGE) + addr % PAGE
  {
  }

  lemma WalkedIdentity(dir: int, k: nat, p: nat, n: nat, addr: nat)
    requires 0 <= dir && dir % PAGE == 0 && dir + 4096 * (k + 2) <= TWO32 && p < 0x10_0000
    requires addr / PAGE == p
    ensures Walked(dir + 4096 * (k + 1) + 3, if p < n then 4096 * p + 7 else 0, addr) ==
            if p < n then Mapped(addr, true) else NotPresent
  {
    Flags(dir + 4096 * (k + 1), 3);
    Flags(4096 * p, 7);
    AddressParts(addr);
  }

  // Under such tables every address of the first n pages translates to itself,
  // present and writable, and every other address is not present.
  lemma TranslatesToItself(m: seq<u32>, dir: int, n: nat, addr: int)
    requires IdentityMaps(m, dir, n) && 0 <= addr < TWO32
    ensures dir + PAGE <= TWO32
    ensures Translate(m, dir, addr) == if addr / PAGE < n then Mapped(addr, true) else NotPresent
  {
    hide Walked;
    var p := addr / PAGE;
    var k := p / 1024;
    AddressParts(addr);
    var pde := DirWord(m, dir, k);
    if k < TablesFor(n) {
      TableIndex(dir, p);
      Flags(dir + 4096 * (k + 1), 3);
      var pte := PageWord(m, dir, p);
      WalkedIdentity(dir, k, p, n, addr);
      assert Translate(m, dir, addr) == Walked(pde, pte, addr);
    }
  }

  // The words of such tables, in numbers: entry k of the directory is the address of the
  // page k + 1 pages behind it, with the flags present and writable; entry p, counted
  // from the first table on, is the address of page p, with the flag for user mode too.
  lemma {:induction false} TableWords(m: seq<u32>, dir: int, n: nat, k: nat, p: nat)
    requires IdentityMaps(m, dir, n) && k < 1024 && p < 1024 * ((n + 1023) / 1024)
    ensures dir / 4 + 1024 + p < |m|
    ensures m[dir / 4 + k] == if k < (n + 1023) / 1024 then dir + 4096 * (k + 1) + 3 else 0
    ensures m[dir / 4 + 1024 + p] == if p < n then 4096 * p + 7 else 0
  {
    assert DirWord(m, dir, k) == m[dir / 4 + k];
    assert PageWord(m, dir, p) == m[dir / 4 + 1024 + p];
  }

  // ---------- building the tables ----------

  lemma TablesStep(n: nat)
    ensures TablesFor(n + 1) == if n % 1024 == 0 then n / 1024 + 1 else TablesFor(n)
    ensures TablesFor(n) == if n % 1024 == 0 then n / 1024 else n / 1024 + 1
  {
  }

  // Filling in the word of the next page, whose table exists.
  lemma NextPageMapped(m: seq<u32>, dir: int, n: nat)
    requires IdentityMaps(m, dir, n) && n < 0x10_0000 && n % 1024 != 0
    ensures WordAt(dir) + 1024 + n < |m|
    ensures var pte: u32 := 4096 * n + PRESENT_WRITE_USER;
            IdentityMaps(m[WordAt(dir) + 1024 + n := pte], dir, n + 1)
  {
    TablesStep(n);
    var pte: u32 := 4096 * n + PRESENT_WRITE_USER;
    var m' := m[WordAt(dir) + 1024 + n := pte];
    forall k | 0 <= k < 1024
      ensures DirWord(m', dir, k) == DirWord(m, dir, k)
    {
    }
    forall p | 0 <= p < 1024 * TablesFor(n)
      ensures PageWord(m', dir, p) == if p == n then 4096 * n + 7 else PageWord(m, dir, p)
    {
    }
  }

  // Adding the table for the next 1024 pages, all absent, then the first of them.
  lemma NextTableMapped(m: seq<u32>, m': seq<u32>, dir: int, n: nat)
    requires IdentityMaps(m, dir, n) && n < 0x10_0000 && n % 1024 == 0
    requires dir + 4096 * (n / 1024 + 2) <= TWO32 && |m'| == |m|
    requires forall w :: 0 <= w < |m| ==>
               m'[w] == if w == WordAt(dir) + n / 1024 then dir + 4096 * (n / 1024 + 1) + PRESENT_WRITE
                        else if w == WordAt(dir) + 1024 + n then 4096 * n + PRESENT_WRITE_USER
                        else if WordAt(dir) + 1024 + n < w < WordAt(dir) + 1024 + n + 1024 then 0
                        else m[w]
    ensures IdentityMaps(m', dir, n + 1)
  {
    TablesStep(n);
    forall k | 0 <= k < 1024
      ensures DirWord(m', dir, k) ==
              if k == n / 1024 then dir + 4096 * (n / 1024 + 1) + 3 else DirWord(m, dir, k)
    {
    }
    forall p | 0 <= p < 1024 * TablesFor(n + 1)
      ensures PageWord(m', dir, p) ==
              if p < n then PageWord(m, dir, p) else if p == n then 4096 * n + 7 else 0
    {
    }
  }

  // Where the directory says the table for the next page is.
  lemma TableOfNext(m: seq<u32>, dir: int, n: nat)
    requires IdentityMaps(m, dir, n) && n < 0x10_0000
    ensures |m| == ADDRESS_WORDS && 0 <= dir && dir % 4096 == 0
    ensures var e := DirWord(m, dir, n / 1024);
            e - e % 0x1000 == if n % 1024 == 0 then 0 else dir + 4096 * (n / 1024 + 1)
  {
    TablesStep(n);
    if n % 1024 != 0 {
      Flags(dir + 4096 * (n / 1024 + 1), 3);
    }
  }

  lemma Geometry(dir: int, n: nat)
    requires 0 <= dir && dir % 4096 == 0 && n < 0x10_0000
    ensures var table := dir + 4096 * (n / 1024 + 1);
            && table % 4096 == 0
            && WordAt(table) == WordAt(dir) + 1024 * (n / 1024 + 1)
            && WordAt(table) + n % 1024 == WordAt(dir) + 1024 + n
            && WordAt(table + 4096) == WordAt(table) + 1024
            && (table + 4096 <= TWO32 ==> WordAt(table) + 1024 <= ADDRESS_WORDS)
    ensures 4096 * n / 0x1000 == n && 0 <= WordAt(dir) && n / 1024 < 1024
  {
    hide WordAt;
    PageNumber(dir / 4096);
    PageNumber(dir / 4096 + n / 1024 + 1);
    PageNumber(dir / 4096 + n / 1024 + 2);
    PageNumber(n);
  }

  // Table k, in the pages behind the directory.
  lemma TablePlace(dir: int, k: nat, table: int)
    requires 0 <= dir && dir % PAGE == 0 && table == dir + 4096 * (1 + k) && table + PAGE <= TWO32
    ensures table % PAGE == 0 && Align4k(table) == table
    ensures 0 <= WordAt(dir) && WordAt(table) == WordAt(dir) + 1024 * (1 + k)
    ensures WordAt(table) + 1024 <= ADDRESS_WORDS
  {
    hide WordAt;
    PageNumber(dir / 4096);
    PageNumber(dir / 4096 + 1 + k);
  }

  // How many whole pages of RAM lie below an address.
  function PagesBelow(addr: nat, bytes: nat): nat {
    (if addr <= bytes then addr else bytes) / PAGE
  }

  // Every address below the end translates to itself, present and writable.
  ghost predicate AllMapped(m: seq<u32>, dir: int, end: int) {
    && |m| == ADDRESS_WORDS && 0 <= dir && dir + PAGE <= TWO32 && end <= TWO32
    && forall addr :: 0 <= addr < end ==> Translate(m, dir, addr) == Mapped(addr, true)
  }

  lemma MappedIffEnoughRam(m: seq<u32>, dir: int, end: nat, bytes: nat)
    requires 0 < end <= TWO32 && end % PAGE == 0 && IdentityMaps(m, dir, PagesBelow(end, bytes))
    ensures AllMapped(m, dir, end) <==> end <= bytes
  {
    var n := PagesBelow(end, bytes);
    TranslatesToItself(m, dir, n, end - 1);
    if end <= bytes {
      forall addr | 0 <= addr < end
        ensures Translate(m, dir, addr) == Mapped(addr, true)
      {
        TranslatesToItself(m, dir, n, addr);
      }
    } else {
      assert Translate(m, dir, end - 1) == NotPresent;
    }
  }

  // How much RAM there must be for a directory at a given address: the directory,
  // the fewest tables that map everything including themselves, and the heap.
  function TablesNeeded(dir: nat): nat {
    (dir / 4096 + 33 + 1022) / 1023
  }

  function RamNeeded(dir: nat): nat {
    dir + 4096 * (1 + TablesNeeded(dir)) + HEAP_SIZE
  }

  // No more tables than that.
  predicate FewTables(dir: int, tables: nat) {
    1023 * tables < dir / 4096 + 33 + 1023
  }

  lemma FewTablesStep(dir: int, n: nat, it: int)
    requires OnPage(dir) && FewTables(dir, TablesFor(n))
    requires it == 4096 * n && it < dir + 4096 * (1 + TablesFor(n)) + HEAP_SIZE
    ensures FewTables(dir, TablesFor(n + 1))
  {
    TablesStep(n);
    if n % 1024 == 0 {
      var t := n / 1024;
      assert n == 1024 * t && TablesFor(n) == t && TablesFor(n + 1) == t + 1;
      assert dir == 4096 * (dir / 4096);
    }
  }

  // Whether the end that memory_init arrives at lies in RAM can be told beforehand.
  lemma EnoughRamIff(dir: nat, bytes: nat, end: nat)
    requires OnPage(dir) && FewTables(dir, TablesFor(PagesBelow(end, bytes)))
    requires end == dir + 4096 * (1 + TablesFor(PagesBelow(end, bytes))) + HEAP_SIZE
    ensures end <= bytes <==> RamNeeded(dir) <= bytes
    ensures end <= bytes ==> end == RamNeeded(dir)
  {
    var t := TablesFor(PagesBelow(end, bytes));
    assert t <= TablesNeeded(dir);
    if end <= bytes {
      assert dir == 4096 * (dir / 4096);
      assert end / 4096 == dir / 4096 + 33 + t;
      assert t == (dir / 4096 + 33 + t + 1023) / 1024;
    }
  }

  predicate OnPage(x: int) {
    x % PAGE == 0
  }

  lemma PagesStep(it: nat, bytes: nat)
    requires OnPage(it)
    ensures PagesBelow(it + PAGE, bytes) == PagesBelow(it, bytes) + (if it + PAGE <= bytes then 1 else 0)
    ensures it + PAGE <= bytes ==> it == 4096 * PagesBelow(it, bytes)
    ensures 4096 * PagesBelow(it, bytes) <= it && PagesBelow(it, bytes) <= it / PAGE
  {
  }

  lemma StaysBelow(it: int, bound: int)
    requires OnPage(it) && OnPage(bound) && it < bound
    ensures it + PAGE <= bound && OnPage(it + PAGE)
  {
  }

  lemma PageAligned(dir: int, tables: nat)
    requires OnPage(dir)
    ensures OnPage(dir + 4096 * (1 + tables)) && OnPage(dir + 4096 * (1 + tables) + HEAP_SIZE)
  {
  }

  lemma TablesBound(n: nat)
    requires n <= 0x10_0000
    ensures TablesFor(n) <= 1024
  {
  }

  class KernelMemory {
    const ram: array<u32>    // physical memory by words
    var memorySize: int      // bytes of RAM
    var currentDirectory: int
    var allocPtr: int

    // The machine before memory_init: anything in memory, and the allocation
    // pointer behind the kernel image.
    constructor (ram: array<u32>, end: nat)
      ensures this.ram == ram && allocPtr == end
    {
      this.ram := ram;
      allocPtr := end;
      memorySize, currentDirectory := 0, 0;
    }

    // kmalloc_internal while there is no heap.
    method KmallocInternal(size: nat, align: bool) returns (ret: int)
      modifies this`allocPtr
      ensures ret == (if align then Align4k(old(allocPtr)) else old(allocPtr))
      ensures allocPtr == ret + size
    {
      if align {
        allocPtr := Align4k(allocPtr);
      }
      ret := allocPtr;
      allocPtr := allocPtr + size;
    }

    method ClearPage(addr: nat)
      requires addr % PAGE == 0 && WordAt(addr) + 1024 <= ram.Length
      modifies ram
      ensures forall w :: 0 <= w < ram.Length ==>
                ram[w] == if WordAt(addr) <= w < WordAt(addr) + 1024 then 0 else old(ram[w])
    {
      for i := 0 to 1024
        invariant forall w :: 0 <= w < ram.Length ==>
                    ram[w] == if WordAt(addr) <= w < WordAt(addr) + i then 0 else old(ram[w])
      {
        ram[WordAt(addr) + i] := 0;
      }
    }

    // alloc_page for the page after the n already mapped. When the page starts a
    // new table, the table is taken from the memory being mapped.
    method AllocPage(addr: int, ghost n: nat) returns (res: bool)
      requires ram.Length == ADDRESS_WORDS && n < 0x10_0000 && 0 <= addr < TWO32 && PAGE <= memorySize
      requires IdentityMaps(ram[..], currentDirectory, n)
      requires allocPtr == currentDirectory + 4096 * (1 + TablesFor(n)) && allocPtr + PAGE <= TWO32
      requires addr + PAGE <= memorySize ==> addr == 4096 * n
      modifies this`allocPtr, ram
      ensures res <==> addr + PAGE <= memorySize
      ensures IdentityMaps(ram[..], currentDirectory, if res then n + 1 else n)
      ensures allocPtr == currentDirectory + 4096 * (1 + TablesFor(if res then n + 1 else n))
      ensures old(allocPtr) <= allocPtr && WordAt(old(allocPtr)) <= WordAt(allocPtr)
      ensures forall w :: 0 <= w < ram.Length && !(WordAt(currentDirectory) <= w < WordAt(allocPtr)) ==> ram[w] == old(ram[w])
    {
      hide IdentityMaps, TablesFor, WordAt;
      if addr > memorySize - 4096 {
        return false;
      }
      TablesStep(n);
      TableOfNext(ram[..], currentDirectory, n);
      Geometry(currentDirectory, n);
      var frameAddr := addr / 0x1000;
      var tableIndex := frameAddr % 1024;
      var dirIndex := frameAddr / 1024;
      assert DirWord(ram[..], currentDirectory, dirIndex) == ram[WordAt(currentDirectory) + dirIndex];
      var entry := ram[WordAt(currentDirectory) + dirIndex];
      var table := entry - entry % 0x1000;
      if table == 0 {
        MapInNewTable(dirIndex, tableIndex, addr, n);
      } else {
        MapInTable(table, tableIndex, addr, n);
      }
      res := true;
    }

    // The rest of alloc_page when the page's table exists ...
    method MapInTable(table: int, tableIndex: nat, addr: int, ghost n: nat)
      requires ram.Length == ADDRESS_WORDS && n < 0x10_0000 && addr == 4096 * n
      requires IdentityMaps(ram[..], currentDirectory, n) && n % 1024 != 0
      requires table == currentDirectory + 4096 * (n / 1024 + 1) && tableIndex == n % 1024
      modifies ram
      ensures IdentityMaps(ram[..], currentDirectory, n + 1)
      ensures forall w :: 0 <= w < ram.Length && !(WordAt(table) <= w < WordAt(table) + 1024) ==> ram[w] == old(ram[w])
    {
      ghost var m := ram[..];
      Geometry(currentDirectory, n);
      NextPageMapped(m, currentDirectory, n);
      var pte: u32 := addr + PRESENT_WRITE_USER;
      hide IdentityMaps, WordAt;
      ram[WordAt(table) + tableIndex] := pte;
      assert ram[..] == m[WordAt(currentDirectory) + 1024 + n := pte];
    }

    // ... and when it has to be made first.
    method MapInNewTable(dirIndex: nat, tableIndex: nat, addr: int, ghost n: nat)
      requires ram.Length == ADDRESS_WORDS && n < 0x10_0000 && addr == 4096 * n
      requires IdentityMaps(ram[..], currentDirectory, n) && n % 1024 == 0
      requires dirIndex == n / 1024 && tableIndex == 0
      requires allocPtr == currentDirectory + 4096 * (1 + dirIndex) && allocPtr + PAGE <= TWO32
      modifies this`allocPtr, ram
      ensures allocPtr == old(allocPtr) + 4096
      ensures IdentityMaps(ram[..], currentDirectory, n + 1)
      ensures forall w :: 0 <= w < ram.Length ==>
                w == WordAt(currentDirectory) + dirIndex
                || WordAt(old(allocPtr)) <= w < WordAt(old(allocPtr)) + 1024
                || ram[w] == old(ram[w])
    {
      ghost var m := ram[..];
      Geometry(currentDirectory, n);
      var table := NewTable(dirIndex);
      var pte: u32 := addr + PRESENT_WRITE_USER;
      ram[WordAt(table) + tableIndex] := pte;
      assert 0 <= currentDirectory;
      hide WordAt;
      NextTableMapped(m, ram[..], currentDirectory, n);
      hide IdentityMaps;
    }

    // The branch of alloc_page that makes a page table.
    method NewTable(dirIndex: nat) returns (table: int)
      requires ram.Length == ADDRESS_WORDS && dirIndex < 1024
      requires 0 <= currentDirectory && currentDirectory % PAGE == 0
      requires allocPtr == currentDirectory + 4096 * (1 + dirIndex) && allocPtr + PAGE <= TWO32
      modifies this`allocPtr, ram
      ensures table == old(allocPtr) && allocPtr == table + 4096
      ensures forall w :: 0 <= w < ram.Length ==>
                ram[w] == if w == WordAt(currentDirectory) + dirIndex then table + PRESENT_WRITE
                          else if WordAt(table) <= w < WordAt(table) + 1024 then 0
                          else old(ram[w])
    {
      hide WordAt, Align4k;
      TablePlace(currentDirectory, dirIndex, allocPtr);
      table := KmallocInternal(4096, true);
      ClearPage(table);
      ram[WordAt(currentDirectory) + dirIndex] := table + PRESENT_WRITE;
    }

    // The start of memory_init: an empty page directory behind everything loaded.
    method MakeDirectory(start: nat)
      requires ram.Length == ADDRESS_WORDS && 0 <= allocPtr
      requires Align4k(if allocPtr < start then start else allocPtr) + PAGE <= TWO32
      modifies this`allocPtr, this`currentDirectory, ram
      ensures currentDirectory == Align4k(if old(allocPtr) < start then start else old(allocPtr))
      ensures 0 <= currentDirectory && currentDirectory % PAGE == 0 && allocPtr == currentDirectory + 4096
      ensures IdentityMaps(ram[..], currentDirectory, 0)
      ensures forall w :: 0 <= w < ram.Length && !(WordAt(currentDirectory) <= w < WordAt(allocPtr)) ==>
                ram[w] == old(ram[w])
    {
      if allocPtr < start {
        allocPtr := start;
      }
      currentDirectory := KmallocInternal(4096, true);
      ClearPage(currentDirectory);
      assert WordAt(allocPtr) == WordAt(currentDirectory) + 1024;
    }

    // The pages below `it` that lie in RAM are mapped, and the tables made for them
    // follow the directory at once.
    ghost predicate MappedTo(it: nat, dir: int, bytes: u32)
      reads this, ram
    {
      && ram.Length == ADDRESS_WORDS && memorySize == bytes && PAGE <= bytes && currentDirectory == dir
      && 0 <= dir && OnPage(dir) && dir + 4096 * 1026 + HEAP_SIZE <= TWO32
      && OnPage(it) && it <= allocPtr + HEAP_SIZE
      && IdentityMaps(ram[..], dir, PagesBelow(it, bytes))
      && allocPtr == dir + 4096 * (1 + TablesFor(PagesBelow(it, bytes)))
      && TablesFor(PagesBelow(it, bytes)) <= 1024
      && FewTables(dir, TablesFor(PagesBelow(it, bytes)))
    }

    // How far the loop of memory_init has to go, at most.
    ghost function ToGo(it: nat, bytes: u32): int
      reads this
    {
      allocPtr + HEAP_SIZE + 4096 * (1024 - TablesFor(PagesBelow(it, bytes))) - it
    }

    // One turn of that loop.
    method MapPage(it: nat, ghost dir: int, ghost bytes: u32)
      requires MappedTo(it, dir, bytes) && it < allocPtr + HEAP_SIZE
      modifies this`allocPtr, ram
      ensures MappedTo(it + PAGE, dir, bytes)
      ensures ToGo(it + PAGE, bytes) < old(ToGo(it, bytes))
      ensures WordAt(old(allocPtr)) <= WordAt(allocPtr)
      ensures forall w :: 0 <= w < ram.Length && !(WordAt(dir) <= w < WordAt(allocPtr)) ==> ram[w] == old(ram[w])
    {
      hide IdentityMaps, TablesFor, PagesBelow, WordAt, OnPage, FewTables;
      PagesStep(it, bytes);
      if it + PAGE <= bytes {
        FewTablesStep(dir, PagesBelow(it, bytes), it);
      }
      PageAligned(dir, TablesFor(PagesBelow(it, bytes)));
      StaysBelow(it, allocPtr + HEAP_SIZE);
      var res := AllocPage(it, PagesBelow(it, bytes));
      TablesBound(PagesBelow(it + PAGE, bytes));
    }

    // memory_init, up to switching paging on. The loop's bound moves away each time
    // a page table is made, since the table must be mapped too; it still ends, with
    // every page below the end of the heap-to-be mapped that lies in RAM. Everything
    // below that end is mapped if and only if there is enough RAM for the directory
    // address, which follows from the start and the end of the kernel image.
    method MemoryInit(start: nat, bytes: u32)
      requires ram.Length == ADDRESS_WORDS && PAGE <= bytes && 0 <= allocPtr
      requires Align4k(if allocPtr < start then start else allocPtr) + 4096 * 1026 + 0x2_0000 <= TWO32
      modifies this, ram
      ensures memorySize == bytes && 0 <= allocPtr && OnPage(allocPtr)
      ensures currentDirectory == Align4k(if old(allocPtr) < start then start else old(allocPtr))
      ensures IdentityMaps(ram[..], currentDirectory, PagesBelow(allocPtr + 0x2_0000, bytes))
      ensures allocPtr == currentDirectory + 4096 * (1 + TablesFor(PagesBelow(allocPtr + 0x2_0000, bytes)))
      ensures 0 <= currentDirectory
      ensures AllMapped(ram[..], currentDirectory, allocPtr + 0x2_0000) <==> RamNeeded(currentDirectory) <= bytes
      ensures RamNeeded(currentDirectory) <= bytes ==> allocPtr + 0x2_0000 == RamNeeded(currentDirectory)
      ensures forall w :: 0 <= w < ram.Length && !(WordAt(currentDirectory) <= w < WordAt(allocPtr)) ==>
                ram[w] == old(ram[w])
    {
      memorySize := bytes;
      MakeDirectory(start);
      MapNothing(bytes);
      hide MappedTo, IdentityMaps, TablesFor, PagesBelow, WordAt, OnPage, AllMapped, RamNeeded, Align4k;
      ghost var dir := currentDirectory;
      var it := MapAll(dir, bytes);
      Finished(it, dir, bytes);
    }

    lemma MapNothing(bytes: u32)
      requires ram.Length == ADDRESS_WORDS && memorySize == bytes && PAGE <= bytes
      requires 0 <= currentDirectory && OnPage(currentDirectory) && allocPtr == currentDirectory + 4096
      requires currentDirectory + 4096 * 1026 + HEAP_SIZE <= TWO32 && IdentityMaps(ram[..], currentDirectory, 0)
      ensures MappedTo(0, currentDirectory, bytes)
    {
      hide IdentityMaps;
    }

    // The loop of memory_init.
    method MapAll(ghost dir: int, ghost bytes: u32) returns (it: nat)
      requires MappedTo(0, dir, bytes)
      modifies this`allocPtr, ram
      ensures MappedTo(it, dir, bytes) && it >= allocPtr + HEAP_SIZE
      ensures WordAt(old(allocPtr)) <= WordAt(allocPtr)
      ensures forall w :: 0 <= w < ram.Length && !(WordAt(dir) <= w < WordAt(allocPtr)) ==> ram[w] == old(ram[w])
    {
      hide MappedTo, TablesFor, PagesBelow, WordAt, ToGo;
      it := 0;
      while it < allocPtr + HEAP_SIZE
        invariant MappedTo(it, dir, bytes)
        invariant WordAt(old(allocPtr)) <= WordAt(allocPtr)
        invariant forall w :: 0 <= w < ram.Length && !(WordAt(dir) <= w < WordAt(allocPtr)) ==> ram[w] == old(ram[w])
        decreases ToGo(it, bytes)
      {
        Nonnegative(it, dir, bytes);
        MapPage(it, dir, bytes);
        it := it + 0x1000;
      }
    }

    lemma Nonnegative(it: nat, dir: int, bytes: u32)
      requires MappedTo(it, dir, bytes)
      ensures ToGo(it, bytes) >= 0
    {
      hide IdentityMaps, TablesFor, PagesBelow;
    }

    lemma Finished(it: nat, dir: int, bytes: u32)
      requires MappedTo(it, dir, bytes) && it >= allocPtr + HEAP_SIZE
      ensures currentDirectory == dir && memorySize == bytes && 0 <= allocPtr && OnPage(allocPtr)
      ensures IdentityMaps(ram[..], dir, PagesBelow(allocPtr + HEAP_SIZE, bytes))
      ensures allocPtr == dir + 4096 * (1 + TablesFor(PagesBelow(allocPtr + HEAP_SIZE, bytes)))
      ensures 0 <= dir && (AllMapped(ram[..], dir, allocPtr + HEAP_SIZE) <==> RamNeeded(dir) <= bytes)
      ensures RamNeeded(dir) <= bytes ==> allocPtr + HEAP_SIZE == RamNeeded(dir)
    {
      hide IdentityMaps, TablesFor, PagesBelow, FewTables, AllMapped, RamNeeded;
      PageAligned(dir, TablesFor(PagesBelow(it, bytes)));
      MappedIffEnoughRam(ram[..], dir, it, bytes);
      EnoughRamIff(dir, bytes, it);
    }
  }
}
