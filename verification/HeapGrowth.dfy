// Where the heap of src/heap.c meets the page table of src/memory.c: the sets of
// pages and tables that the heap model keeps are those of the table in memory, and
// growing by a page writes the next entry of that table.
module HeapGrowth {
  import opened Words
  import HeapInvariant
  import KernelHeap
  import P = Paging

  function FirstNumbers(n: nat): (s: set<int>)
    ensures forall k :: k in s <==> 0 <= k < n
  {
    if n == 0 then {} else FirstNumbers(n - 1) + {n - 1}
  }

  // The directory slots that hold a table, and the pages mapped to themselves, when
  // the first n pages are identity-mapped.
  function TableSlots(n: nat): set<int> {
    FirstNumbers(P.TablesFor(n))
  }

  function MappedPages(n: nat): set<int> {
    FirstNumbers(n)
  }

  // They are what the processor sees.
  lemma SetsAreSeen(m: seq<u32>, dir: int, n: nat)
    requires P.IdentityMaps(m, dir, n)
    ensures dir + PAGE <= TWO32
    ensures forall k :: 0 <= k < 1024 ==> (k in TableSlots(n) <==> P.DirWord(m, dir, k) % 2 == 1)
    ensures forall addr :: 0 <= addr < TWO32 ==>
              (addr / PAGE in MappedPages(n) <==> P.Translate(m, dir, addr) == P.Mapped(addr, true))
  {
    forall addr | 0 <= addr < TWO32
      ensures addr / PAGE in MappedPages(n) <==> P.Translate(m, dir, addr) == P.Mapped(addr, true)
    {
      P.TranslatesToItself(m, dir, n, addr);
    }
    forall k | 0 <= k < 1024
      ensures k in TableSlots(n) <==> P.DirWord(m, dir, k) % 2 == 1
    {
      if k < P.TablesFor(n) {
        P.Flags(dir + 4096 * (k + 1), P.PRESENT_WRITE);
      }
    }
  }

  // The heap that heap_init makes right behind what memory_init allocated is mapped.
  lemma FirstHeapIsMapped(start: nat, bytes: nat)
    requires start + P.HEAP_SIZE <= bytes
    ensures HeapInvariant.Mapped(MappedPages(P.PagesBelow(start + P.HEAP_SIZE, bytes)), start, start + P.HEAP_SIZE)
  {
  }

  // The entry for page n in the table that the directory names for it.
  function NextEntry(m: seq<u32>, dir: int, n: nat): (w: int)
    requires P.IdentityMaps(m, dir, n) && n < 0x10_0000
  {
    var entry := P.DirWord(m, dir, n / 1024);
    P.WordAt(entry - entry % 0x1000) + n % 1024
  }

  // What alloc_page writes for page n.
  function EntryWritten(m: seq<u32>, dir: int, n: nat): seq<u32>
    requires P.IdentityMaps(m, dir, n) && n < 0x10_0000
  {
    var pte: u32 := 4096 * n + P.PRESENT_WRITE_USER;
    if 0 <= NextEntry(m, dir, n) < |m| then m[NextEntry(m, dir, n) := pte] else m
  }

  // A page at the end of the heap can be added exactly when it lies in memory and is
  // not the first of a table; then alloc_page's write maps exactly that page more.
  lemma GrowthIsNextPage(m: seq<u32>, dir: int, n: nat, bytes: int)
    requires P.IdentityMaps(m, dir, n) && n < 0x10_0000
    ensures KernelHeap.PageAvailable(4096 * n, bytes, TableSlots(n)) <==> 4096 * n + PAGE <= bytes && n % 1024 != 0
    ensures n % 1024 != 0 ==>
              && P.IdentityMaps(EntryWritten(m, dir, n), dir, n + 1)
              && MappedPages(n + 1) == MappedPages(n) + {4096 * n / PAGE}
              && TableSlots(n + 1) == TableSlots(n)
  {
    P.TablesStep(n);
    SlotOfPage(n);
    if n % 1024 != 0 {
      P.TableOfNext(m, dir, n);
      P.TableIndex(dir, n);
      P.NextPageMapped(m, dir, n);
    }
  }

  lemma SlotOfPage(n: nat)
    ensures 4096 * n / 0x40_0000 == n / 1024 && 4096 * n / PAGE == n
    ensures n / 1024 in TableSlots(n) <==> n % 1024 != 0
  {
    assert (n + 1023) / 1024 == n / 1024 + if n % 1024 == 0 then 0 else 1;
  }

  // The page table after the heap has grown by g pages.
  ghost function TablesAfter(m: seq<u32>, dir: int, n: nat, g: nat): seq<u32>
    decreases g
  {
    if g == 0 || !P.IdentityMaps(m, dir, n) || n >= 0x10_0000 then m
    else TablesAfter(EntryWritten(m, dir, n), dir, n + 1, g - 1)
  }

  // However far heap_malloc grows the heap, the page table in memory identity-maps
  // exactly the pages up to its new end.
  lemma {:induction false} GrownHeapIsMapped(m: seq<u32>, dir: int, n: nat, g: nat, bytes: int)
    requires P.IdentityMaps(m, dir, n) && bytes <= TWO32
    requires KernelHeap.Growable(4096 * n, g, bytes, TableSlots(n))
    ensures P.IdentityMaps(TablesAfter(m, dir, n, g), dir, n + g)
    ensures TableSlots(n + g) == TableSlots(n)
    decreases g
  {
    hide P.IdentityMaps, P.TablesFor, TableSlots, FirstNumbers, EntryWritten;
    if g > 0 {
      assert KernelHeap.PageAvailable(4096 * n, bytes, TableSlots(n));
      assert n < 0x10_0000;
      hide KernelHeap.PageAvailable;
      GrowthIsNextPage(m, dir, n, bytes);
      GrownHeapIsMapped(EntryWritten(m, dir, n), dir, n + 1, g - 1, bytes);
    }
  }
}
