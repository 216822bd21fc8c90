// The kernel heap of src/heap.c over raw memory.
module KernelHeap {
  import opened Words
  import opened RawMemory
  import opened HeapModel
  import opened HeapInvariant

  datatype Allocation =
    | Block(ptr: nat)
    | OutOfMemory      // the growth assertion failed and the kernel halted
    | NeedsPageTable   // growth ran into an address range without a page table

  // could_fit_page_table, in 32-bit arithmetic.
  predicate CouldFitPageTable(h: u32, size: u32, toAlloc: u32) {
    var newStartPoint := Wrap(h + toAlloc);
    var end := Wrap(newStartPoint + 0x1000);
    var nextBoundary := end - end % 0x1000;
    var sizeNeeded := Wrap(4096 + nextBoundary - newStartPoint + FOOTER);
    size >= Wrap(sizeNeeded + toAlloc)
  }

  // There is room for a page table behind a request that fits the block if and only if
  // some page boundary strictly beyond the request's end has a whole page and a footer
  // after it inside the block.
  lemma {:induction false} FitsIffPageBehind(h: u32, size: u32, toAlloc: u32)
    requires h + size <= MAX_MEMORY && toAlloc <= size
    ensures CouldFitPageTable(h, size, toAlloc) <==>
            exists b :: b % 4096 == 0 && b > h + toAlloc && PageBehind(b, h + size)
  {
    var p := h + toAlloc;
    var next := p + 0x1000 - (p + 0x1000) % 0x1000;
    NextBoundary(p);
    assert Wrap(p) == p && Wrap(p + 0x1000) == p + 0x1000;
    assert CouldFitPageTable(h, size, toAlloc) <==> PageBehind(next, h + size);
    forall b | b % 4096 == 0 && b > p && PageBehind(b, h + size)
      ensures PageBehind(next, h + size)
    {
      LeastBoundary(p, b);
    }
  }

  predicate PageBehind(b: int, end: int) {
    b + 4096 + 4 <= end
  }

  lemma {:induction false} NextBoundary(p: nat)
    ensures var next := p + 0x1000 - (p + 0x1000) % 0x1000;
            next % 4096 == 0 && p < next <= p + 4096
  {
  }

  lemma {:induction false} LeastBoundary(p: nat, b: nat)
    requires b % 4096 == 0 && b > p
    ensures p + 0x1000 - (p + 0x1000) % 0x1000 <= b
  {
    var q, c := p / 4096, b / 4096;
    assert c >= q + 1;
  }

  // The reserve keeps a last block from ever being filled exactly.
  lemma ReserveLeavesRoom(h: u32, size: u32, toAlloc: u32)
    requires h + size <= MAX_MEMORY && toAlloc <= size
    requires CouldFitPageTable(h, size, toAlloc)
    ensures size >= toAlloc + PAGE + FOOTER
  {
    var p := h + toAlloc;
    var end := p + 0x1000;
    assert Wrap(p) == p && Wrap(end) == end;
    assert end - end % 0x1000 > p;
  }

  // Block i can take an allocation of `full` bytes, header and footer included:
  // exactly, or leaving room for another block, and if it is the last block only
  // with the reserve for a page table on top.
  ghost predicate Fits(cuts: seq<int>, holes: seq<bool>, full: u32, i: nat)
    requires |cuts| == |holes| + 1 && i < |holes|
  {
    && 0 <= cuts[i] < cuts[i + 1] <= MAX_MEMORY
    && holes[i]
    && var size := cuts[i + 1] - cuts[i];
       && (size == full || size >= full + OVERHEAD)
       && (i == |holes| - 1 ==> CouldFitPageTable(cuts[i], size, full))
  }

  ghost predicate NoneFitsBefore(cuts: seq<int>, holes: seq<bool>, full: u32, i: nat)
  {
    && |cuts| == |holes| + 1 && i <= |holes|
    && forall j :: 0 <= j < i ==> !Fits(cuts, holes, full, j)
  }

  // The tiling after an allocation of `full` bytes in block i.
  ghost function PlacedCuts(cuts: seq<int>, i: nat, full: int): seq<int>
    requires i < |cuts| - 1
  {
    if cuts[i + 1] - cuts[i] == full then cuts else SpliceCuts(cuts, i, i, [cuts[i] + full])
  }

  ghost function PlacedHoles(cuts: seq<int>, holes: seq<bool>, i: nat, full: int): seq<bool>
    requires i < |cuts| - 1 == |holes|
  {
    if cuts[i + 1] - cuts[i] == full then holes[i := false] else SpliceHoles(holes, i, i, [false, true])
  }

  // The first and last of the blocks that freeing block i makes one hole.
  ghost function FirstMerged(holes: seq<bool>, i: nat): (a: nat)
    requires i < |holes|
    ensures a <= i
  {
    if i > 0 && holes[i - 1] then i - 1 else i
  }

  ghost function LastMerged(holes: seq<bool>, i: nat): (b: nat)
    requires i < |holes|
    ensures i <= b < |holes|
  {
    if i + 1 < |holes| && holes[i + 1] then i + 1 else i
  }

  // When heap_free as written leaves a well-formed heap: the block to the right
  // is in use, or is a hole other than the last with no hole to the left.
  ghost predicate FreesCleanly(holes: seq<bool>, i: nat)
  {
    i + 1 < |holes| && (!holes[i + 1] || (i + 1 < |holes| - 1 && !(i > 0 && holes[i - 1])))
  }

  // A hole on the left and one on the right: the freed block has joined the left one
  // only, and the right one's footer names the header that was absorbed. Nobody reads
  // that footer in the last block, and the blocks still tile; elsewhere they do not.
  ghost predicate NotTakenIn(m: Memory, start: int, end: int, cuts: seq<int>, holes: seq<bool>, i: nat)
    requires |cuts| == |holes| + 1 && 0 < i && i + 1 < |holes|
  {
    var l, e, f := cuts[i - 1], cuts[i + 1], cuts[i + 2];
    && BlockAt(m, l, e, true, false) && FooterAt(m, l, e)
    && BlockAt(m, e, f, true, i + 2 == |holes|) && GetWord(m, f - FOOTER) == cuts[i]
    && if i + 2 == |holes|
       then Laid(m, start, end, SpliceCuts(cuts, i - 1, i + 1, [e]), SpliceHoles(holes, i - 1, i + 1, [true, true]))
       else forall c, h :: !Laid(m, start, end, c, h)
  }

  // What heap_free leaves when it does not free cleanly. With no hole on the left the
  // block has taken in the last hole, and the mark of the last block is lost.
  ghost predicate Spoiled(m: Memory, start: int, end: int, cuts: seq<int>, holes: seq<bool>, i: nat)
    requires |cuts| == |holes| + 1 && i + 1 < |holes|
  {
    && (forall c, h :: !Tiled(m, start, end, c, h))
    && if i > 0 && holes[i - 1] then NotTakenIn(m, start, end, cuts, holes, i)
       else BlockAt(m, cuts[i], end, true, false) && forall c, h :: !Laid(m, start, end, c, h)
  }

  lemma FreedBadly(m0: Memory, m: Memory, start: int, end: int, cuts: seq<int>, holes: seq<bool>, used: int,
                   pages: set<int>, i: nat)
    requires HeapOk(m0, start, end, cuts, holes, used, pages) && |cuts| == |holes| + 1 && i + 1 < |holes|
    requires !holes[i] && !FreesCleanly(holes, i) && SameOutside(m0, m, cuts[FirstMerged(holes, i)], cuts[i + 2])
    requires if i > 0 && holes[i - 1]
             then BlockAt(m, cuts[i - 1], cuts[i + 1], true, false) && FooterAt(m, cuts[i - 1], cuts[i + 1])
                  && BlockAt(m, cuts[i + 1], cuts[i + 2], true, i + 2 == |holes|) && FooterAt(m, cuts[i], cuts[i + 2])
             else BlockAt(m, cuts[i], cuts[i + 2], true, false)
    ensures Spoiled(m, start, end, cuts, holes, i)
  {
    hide HeapOk, SameOutside, GetWord, Laid, Ordered, SpliceCuts, SpliceHoles;
    Shape(m0, start, end, cuts, holes, used, pages);
    HeapBlock(m0, start, end, cuts, holes, used, pages, i);
    var e, f := cuts[i + 1], cuts[i + 2];
    if i > 0 && holes[i - 1] {
      SpoiledByTwoHoles(m0, m, start, end, cuts, holes, used, pages, i - 1, e, f, i + 2 == |holes|);
      if i + 2 == |holes| {
        StillLaid(m0, m, start, end, cuts, holes, used, pages, i - 1, e);
      } else {
        SpoiledByStaleFooter(m0, m, start, end, cuts, holes, used, pages, i - 1, e, f);
      }
    } else {
      SpoiledByLostMark(m0, m, start, end, cuts, holes, used, pages, i);
    }
  }

  // What the tests of heap_malloc's loop amount to.
  lemma FitTest(cuts: seq<int>, holes: seq<bool>, full: u32, i: nat)
    requires |cuts| == |holes| + 1 && i < |holes|
    requires 0 <= cuts[i] && cuts[i] + OVERHEAD <= cuts[i + 1] <= MAX_MEMORY
    ensures var size := cuts[i + 1] - cuts[i];
            && (Fits(cuts, holes, full, i) <==>
                && holes[i] && (size == full || size >= full + OVERHEAD)
                && (i == |holes| - 1 ==> CouldFitPageTable(cuts[i], size, full)))
            && (Fits(cuts, holes, full, i) && i == |holes| - 1 ==> size != full)
  {
    if Fits(cuts, holes, full, i) && i == |holes| - 1 {
      ReserveLeavesRoom(cuts[i], cuts[i + 1] - cuts[i], full);
    }
  }

  // The same in numbers: the block is a hole of exactly the bytes asked for, or of 12
  // more, and behind a request in the last block there is room for a page table.
  lemma {:induction false} FitsIff(cuts: seq<int>, holes: seq<bool>, full: u32, i: nat)
    requires |cuts| == |holes| + 1 && i < |holes|
    requires 0 <= cuts[i] && cuts[i] + 12 <= cuts[i + 1] <= MAX_MEMORY
    ensures Fits(cuts, holes, full, i) <==>
            && holes[i] && (cuts[i + 1] == cuts[i] + full || cuts[i + 1] >= cuts[i] + full + 12)
            && (i == |holes| - 1 ==> exists b :: b % 4096 == 0 && b > cuts[i] + full && PageBehind(b, cuts[i + 1]))
  {
    var size := cuts[i + 1] - cuts[i];
    if size >= full {
      FitsIffPageBehind(cuts[i], size, full);
    }
  }

  // What an allocation of `full` bytes did, starting from a given tiling: it used
  // the first block that fits, counting from the left.
  ghost predicate Allocated(ptr: int, full: u32, at: nat, cuts: seq<int>, holes: seq<bool>,
                            cuts': seq<int>, holes': seq<bool>)
  {
    && |cuts| == |holes| + 1 && at < |holes|
    && Fits(cuts, holes, full, at) && NoneFitsBefore(cuts, holes, full, at)
    && ptr == cuts[at] + HEADER
    && cuts' == PlacedCuts(cuts, at, full) && holes' == PlacedHoles(cuts, holes, at, full)
  }

  // Nothing fits until the heap has grown by this many pages.
  ghost predicate GrewOnlyAsNeeded(cuts: seq<int>, holes: seq<bool>, full: u32, pages: nat)
  {
    && |cuts| == |holes| + 1
    && forall k :: 0 <= k < pages ==> NoneFitsBefore(Grown(cuts, k), holes, full, |holes|)
  }

  // The page at an address lies in memory, and there is a page table for it.
  predicate PageAvailable(addr: int, bytes: int, tables: set<int>) {
    addr + PAGE <= bytes && addr / 0x40_0000 in tables
  }

  // So do the g pages from an address on.
  predicate Growable(addr: int, g: nat, bytes: int, tables: set<int>)
    decreases g
  {
    g == 0 || (PageAvailable(addr, bytes, tables) && Growable(addr + PAGE, g - 1, bytes, tables))
  }

  // Why the heap cannot grow beyond its end.
  predicate Refused(r: Allocation, end: int, bytes: int, tables: set<int>) {
    !r.Block? && !PageAvailable(end, bytes, tables) && (r.OutOfMemory? <==> end + PAGE > bytes)
  }

  // Some number of pages, none among them, can be added and makes some block fit.
  ghost predicate CanServe(cuts: seq<int>, holes: seq<bool>, full: u32, end: int, bytes: int, tables: set<int>) {
    |cuts| == |holes| + 1 &&
    exists g: nat :: Growable(end, g, bytes, tables) && !NoneFitsBefore(Grown(cuts, g), holes, full, |holes|)
  }

  // Everything heap_malloc(size) changes: it grows the heap by as many pages as it
  // must, then uses the first block that fits; no byte of a block in use differs. It
  // fails only when nothing fits and the next page is not available.
  ghost predicate Malloced(size: u32, r: Allocation, at: nat, grown: nat, tables: set<int>,
                           m: Memory, cuts: seq<int>, holes: seq<bool>, used: int, end: int,
                           m': Memory, cuts': seq<int>, holes': seq<bool>, used': int, end': int)
  {
    && |cuts| == |holes| + 1 && size + OVERHEAD < TWO32
    && end' == end + 4096 * grown
    && Growable(end, grown, |m|, tables)
    && GrewOnlyAsNeeded(cuts, holes, size + OVERHEAD, grown)
    && LiveSame(m, m', cuts, holes)
    && match r
       case Block(ptr) =>
         Allocated(ptr, size + OVERHEAD, at, Grown(cuts, grown), holes, cuts', holes') && used' == used + size
       case _ =>
         && cuts' == Grown(cuts, grown) && holes' == holes && used' == used
         && NoneFitsBefore(cuts', holes, size + OVERHEAD, |holes|)
         && Refused(r, end', |m|, tables)
  }

  lemma {:induction false} GrowableBeyond(addr: int, g: nat, n: nat, bytes: int, tables: set<int>)
    requires Growable(addr, g, bytes, tables) && n < g
    ensures PageAvailable(addr + 4096 * n, bytes, tables)
    decreases g
  {
    if n > 0 {
      GrowableBeyond(addr + PAGE, g - 1, n - 1, bytes, tables);
    }
  }

  // heap_malloc gives a block if and only if it can be had.
  lemma ServedIffPossible(size: u32, r: Allocation, at: nat, grown: nat, tables: set<int>,
                          m: Memory, cuts: seq<int>, holes: seq<bool>, used: int, end: int,
                          m': Memory, cuts': seq<int>, holes': seq<bool>, used': int, end': int)
    requires Malloced(size, r, at, grown, tables, m, cuts, holes, used, end, m', cuts', holes', used', end')
    ensures r.Block? <==> CanServe(cuts, holes, size + OVERHEAD, end, |m|, tables)
    ensures !r.Block? ==> !CanServe(cuts', holes', size + OVERHEAD, end', |m|, tables)
    ensures |m'| == |m|
  {
    var full: u32 := size + OVERHEAD;
    hide Fits, PlacedCuts, PlacedHoles;
    if r.Block? {
      assert !NoneFitsBefore(Grown(cuts, grown), holes, full, |holes|) by {
        assert Fits(Grown(cuts, grown), holes, full, at);
      }
    } else {
      hide NoneFitsBefore, PageAvailable;
      forall g: nat | Growable(end, g, |m|, tables)
        ensures NoneFitsBefore(Grown(cuts, g), holes, full, |holes|)
      {
        if g > grown {
          GrowableBeyond(end, g, grown, |m|, tables);
        }
      }
      forall g: nat | Growable(end', g, |m|, tables)
        ensures NoneFitsBefore(Grown(cuts', g), holes, full, |holes|)
      {
        assert g == 0 && Grown(cuts', 0) == cuts';
      }
    }
  }

  // A last block this much larger than the request always takes it: the reserve
  // for a page table is at most two pages and a footer.
  lemma LargeLastFits(h: u32, size: u32, full: u32)
    requires h + size <= MAX_MEMORY && full + 8196 <= size
    ensures CouldFitPageTable(h, size, full)
  {
    var p := h + full;
    assert Wrap(p) == p && Wrap(p + 0x1000) == p + 0x1000;
    var next := p + 0x1000 - (p + 0x1000) % 0x1000;
    assert p < next <= p + 0x1000;
    assert Wrap(4096 + next - p + FOOTER) == 4096 + next - p + FOOTER;
  }

  lemma {:induction false} GrowableReaches(addr: int, g: nat, bytes: int, tables: set<int>)
    requires Growable(addr, g, bytes, tables) && addr <= bytes
    ensures addr + 4096 * g <= bytes
    decreases g
  {
    if g > 0 {
      GrowableReaches(addr + PAGE, g - 1, bytes, tables);
    }
  }

  // So a request is served whenever enough pages with page tables follow the heap.
  lemma EnoughPagesServe(cuts: seq<int>, holes: seq<bool>, full: u32, end: int, bytes: int, tables: set<int>, g: nat)
    requires |cuts| == |holes| + 1 && holes != [] && holes[|holes| - 1]
    requires 0 <= cuts[|holes| - 1] <= cuts[|holes|] == end <= bytes <= MAX_MEMORY
    requires Growable(end, g, bytes, tables) && 4096 * g >= full + 8196
    ensures CanServe(cuts, holes, full, end, bytes, tables)
  {
    var i := |holes| - 1;
    var c := Grown(cuts, g);
    GrowableReaches(end, g, bytes, tables);
    var h: u32, size: u32 := c[i], c[i + 1] - c[i];
    LargeLastFits(h, size, full);
    hide CouldFitPageTable;
    assert Fits(c, holes, full, i);
    assert !NoneFitsBefore(c, holes, full, |holes|);
  }

  lemma MallocedAtOnce(size: u32, r: Allocation, at: nat, tables: set<int>,
                       m: Memory, cuts: seq<int>, holes: seq<bool>, used: int, end: int, m': Memory, cuts': seq<int>, holes': seq<bool>, used': int)
    requires |cuts| == |holes| + 1 && size + OVERHEAD < TWO32
    requires LiveSame(m, m', cuts, holes)
    requires match r
             case Block(ptr) =>
               Allocated(ptr, size + OVERHEAD, at, cuts, holes, cuts', holes') && used' == used + size
             case _ =>
               && cuts' == cuts && holes' == holes && used' == used
               && NoneFitsBefore(cuts, holes, size + OVERHEAD, |holes|) && Refused(r, end, |m|, tables)
    ensures Malloced(size, r, at, 0, tables, m, cuts, holes, used, end, m', cuts', holes', used', end)
  {
    assert Grown(cuts, 0) == cuts;
  }

  lemma MallocedAfterGrowth(size: u32, r: Allocation, at: nat, grown: nat, tables: set<int>,
                            m: Memory, cuts: seq<int>, holes: seq<bool>, used: int, end: int,
                            m1: Memory, m': Memory, cuts': seq<int>, holes': seq<bool>, used': int, end': int)
    requires |cuts| == |holes| + 1 && holes != [] && holes[|holes| - 1] && size + OVERHEAD < TWO32
    requires NoneFitsBefore(cuts, holes, size + OVERHEAD, |holes|)
    requires LiveSame(m, m1, cuts, holes) && PageAvailable(end, |m|, tables)
    requires Malloced(size, r, at, grown, tables, m1, Grown(cuts, 1), holes, used, end + PAGE,
                      m', cuts', holes', used', end')
    ensures Malloced(size, r, at, grown + 1, tables, m, cuts, holes, used, end, m', cuts', holes', used', end')
  {
    LiveSameGrown(m, m1, m', cuts, holes);
    GrownTwice(cuts, grown);
    hide LiveSame, NoneFitsBefore, Fits;
    assert Grown(cuts, 0) == cuts;
    forall k | 0 <= k < grown + 1
      ensures NoneFitsBefore(Grown(cuts, k), holes, size + OVERHEAD, |holes|)
    {
      if k > 0 {
        GrownTwice(cuts, k - 1);
      }
    }
  }

  // The mask 0xfffff000.
  function PageStart(addr: nat): nat {
    addr - addr % 0x1000
  }

  lemma StartOfPage(addr: nat)
    requires addr % PAGE == 0
    ensures PageStart(addr) == addr
  {
  }

  // A rewrite of blocks a..b stays within the heap.
  lemma WithinHeap(m: Memory, m': Memory, start: int, end: int,
                   cuts: seq<int>, holes: seq<bool>, a: nat, b: nat)
    requires |cuts| == |holes| + 1 && Ordered(cuts) && a <= b < |holes|
    requires cuts[0] == start && cuts[|holes|] == end
    requires SameOutside(m, m', cuts[a], cuts[b + 1])
    ensures SameOutside(m, m', start, end)
  {
    CutsMonotone(cuts, 0, a);
    CutsMonotone(cuts, b + 1, |holes|);
    hide Ordered;
    Widen(m, m', cuts[a], cuts[b + 1], start, end);
  }

  lemma GrownFrame(m: Memory, m1: Memory, m2: Memory, start: int, end: int, end': int)
    requires SameOutside(m, m1, start, end) && SameOutside(m1, m2, start, end') && end <= end'
    ensures SameOutside(m, m2, start, end')
  {
  }

  class Heap {
    var mem: Memory
    const heapStart: nat
    var usedBytes: int
    const tables: set<int>   // directory slots that hold a page table
    var pages: set<int>      // numbers of the pages mapped to themselves
    ghost var end: int
    ghost var cuts: seq<int>
    ghost var holes: seq<bool>

    ghost predicate Valid()
      reads this
    {
      |cuts| == |holes| + 1 && HeapOk(mem, heapStart, end, cuts, holes, usedBytes, pages)
    }

    // heap_init: one hole. Its footer goes eight bytes below where footers belong.
    constructor (memory: Memory, startAddr: nat, size: u32, tables: set<int>, pages: set<int>)
      requires |memory| <= MAX_MEMORY && startAddr + size <= |memory|
      requires startAddr % PAGE == 0 && size % PAGE == 0 && size > 0
      requires Mapped(pages, startAddr, startAddr + size)
      ensures Valid() && heapStart == startAddr && end == startAddr + size && usedBytes == 0
      ensures cuts == [startAddr, startAddr + size] && holes == [true]
      ensures SameOutside(memory, mem, startAddr, startAddr + size)
    {
      hide GetWord, PutWord, PutHeader, HeapOk;
      usedBytes := 0;
      heapStart := startAddr;
      this.tables, this.pages := tables, pages;
      var m1 := PutWord(memory, startAddr + size - FOOTER - HEADER, startAddr);
      var m2 := PutHeader(m1, startAddr, size, true, true);
      assert SameOutside(memory, memory, startAddr, startAddr + size);
      hide BlockAt, SameOutside;
      Compose(memory, memory, m1, startAddr, startAddr + size, startAddr + size - 12, startAddr + size - 8);
      Compose(memory, m1, m2, startAddr, startAddr + size, startAddr, startAddr + HEADER);
      InitialOk(m2, startAddr, startAddr + size, pages);
      mem := m2;
      end, cuts, holes := startAddr + size, [startAddr, startAddr + size], [true];
    }

    // The split of a hole [h, h + size): an allocated block in front, a hole behind.
    method Split(h: nat, size: u32, full: u32, last: bool)
      requires h + size <= |mem| <= MAX_MEMORY && OVERHEAD <= full && full + OVERHEAD <= size
      modifies this`mem
      ensures SameOutside(old(mem), mem, h, h + size)
      ensures BlockAt(mem, h, h + full, false, false) && FooterAt(mem, h, h + full)
      ensures BlockAt(mem, h + full, h + size, true, last) && FooterAt(mem, h + full, h + size)
    {
      hide PutHeader, PutWord, GetWord;
      var next := h + full;
      var m1 := PutHeader(mem, next, size - full, true, last);
      var m2 := PutWord(m1, h + size - FOOTER, next);
      var m3 := PutWord(m2, next - FOOTER, h);
      var m4 := PutHeader(m3, h, full, false, false);
      assert FooterAt(m2, next, h + size) && FooterAt(m3, h, next) && SameOutside(mem, mem, h, h + size);
      hide BlockAt, FooterAt, SameOutside;
      Compose(mem, mem, m1, h, h + size, next, next + HEADER);
      Compose(mem, m1, m2, h, h + size, h + size - FOOTER, h + size);
      Compose(mem, m2, m3, h, h + size, next - FOOTER, next);
      Compose(mem, m3, m4, h, h + size, h, h + HEADER);
      BlockUnchanged(m1, m2, h + size - FOOTER, h + size, next, h + size, true, last);
      BlockUnchanged(m2, m3, next - FOOTER, next, next, h + size, true, last);
      BlockUnchanged(m3, m4, h, h + HEADER, next, h + size, true, last);
      FooterUnchanged(m2, m3, next - FOOTER, next, next, h + size);
      FooterUnchanged(m3, m4, h, h + HEADER, next, h + size);
      FooterUnchanged(m3, m4, h, h + HEADER, h, next);
      mem := m4;
    }

    // Allocating exactly block i, which is not the last.
    method TakeWhole(h: nat, full: u32, ghost i: nat)
      requires Valid() && i < |holes| - 1 && holes[i] && h == cuts[i] && cuts[i + 1] - h == full
      modifies this`mem, this`usedBytes, this`holes
      ensures Valid() && holes == old(holes)[i := false]
      ensures usedBytes == old(usedBytes) + full - OVERHEAD
      ensures SameOutside(old(mem), mem, h, h + full)
    {
      hide HeapOk, GetWord, BlockAt, FooterAt, SameOutside, PutByte;
      HeapBlock(mem, heapStart, end, cuts, holes, usedBytes, pages, i);
      FlagHole(mem, h, h + full, true, 0);
      var m1 := PutByte(mem, h + 4, 0);
      TakeWholeOk(mem, m1, heapStart, end, cuts, holes, usedBytes, pages, i);
      mem := m1;
      usedBytes := usedBytes + full - OVERHEAD;
      holes := holes[i := false];
    }

    // Allocating the front of block i.
    method TakePart(h: nat, size: u32, full: u32, ghost i: nat)
      requires Valid() && i < |holes| && holes[i] && h == cuts[i] && cuts[i + 1] - h == size
      requires OVERHEAD <= full && full + OVERHEAD <= size
      modifies this`mem, this`usedBytes, this`cuts, this`holes
      ensures Valid()
      ensures cuts == SpliceCuts(old(cuts), i, i, [h + full])
      ensures holes == SpliceHoles(old(holes), i, i, [false, true])
      ensures usedBytes == old(usedBytes) + full - OVERHEAD
      ensures SameOutside(old(mem), mem, h, h + size)
    {
      hide HeapOk, BlockAt, FooterAt, SameOutside, SpliceCuts, SpliceHoles, GetWord;
      HeapBlock(mem, heapStart, end, cuts, holes, usedBytes, pages, i);
      var isLast := mem[h + 5] != 0;
      Split(h, size, full, isLast);
      TakePartOk(old(mem), mem, heapStart, end, cuts, holes, usedBytes, pages, i, h + full);
      usedBytes := usedBytes + full - OVERHEAD;
      cuts, holes := SpliceCuts(cuts, i, i, [h + full]), SpliceHoles(holes, i, i, [false, true]);
    }

    // The last block takes in the page behind it, which has just been mapped.
    method Extend(h: nat, size: u32, ghost i: nat)
      requires Valid() && i == |holes| - 1 && h == cuts[i] && h + size == end
      requires end + PAGE <= |mem| && end / PAGE in pages
      modifies this`mem, this`cuts, this`end
      ensures Valid() && cuts == Grown(old(cuts), 1) && end == old(end) + PAGE
      ensures SameOutside(old(mem), mem, h, old(end))
    {
      hide HeapOk, GetWord, PutWord, BlockAt, FooterAt, SameOutside;
      Shape(mem, heapStart, end, cuts, holes, usedBytes, pages);
      HeapBlock(mem, heapStart, end, cuts, holes, usedBytes, pages, i);
      PageTakenIn(mem, h, size);
      var m2 := PutPage(mem, h, size);
      ExtendOk(mem, m2, heapStart, end, cuts, holes, usedBytes, pages);
      mem := m2;
      cuts, end := Grown(cuts, 1), end + PAGE;
    }

    // alloc_page, for an address whose page table exists.
    method AllocPage(addr: nat) returns (res: bool)
      requires Valid()
      modifies this`pages
      ensures Valid()
      ensures res <==> addr + PAGE <= |mem|
      ensures pages == if res then old(pages) + {addr / PAGE} else old(pages)
    {
      if addr > |mem| - 4096 {
        return false;
      }
      MorePages(mem, heapStart, end, cuts, holes, usedBytes, pages, {addr / 0x1000});
      hide HeapOk;
      pages := pages + {addr / 0x1000};
      res := true;
    }

    // The block-walking loop of heap_malloc: stops at the first block that fits,
    // or at the last block.
    method FirstFit(full: u32) returns (fit: bool, h: nat, hsize: u32, ghost i: nat)
      requires Valid() && full >= OVERHEAD
      ensures i < |holes| && h == cuts[i] && hsize == cuts[i + 1] - h
      ensures fit ==> Fits(cuts, holes, full, i) && NoneFitsBefore(cuts, holes, full, i)
      ensures fit ==> holes[i] && (hsize == full || hsize >= full + OVERHEAD)
      ensures fit && hsize == full ==> i < |holes| - 1
      ensures !fit ==> i == |holes| - 1
      ensures fit <==> !NoneFitsBefore(cuts, holes, full, |holes|)
    {
      hide HeapOk, GetWord, CouldFitPageTable, Fits, BlockAt, FooterAt, Ordered;
      i := 0;
      h := heapStart;
      Shape(mem, heapStart, end, cuts, holes, usedBytes, pages);
      while true
        invariant i < |holes| && h == cuts[i]
        invariant NoneFitsBefore(cuts, holes, full, i)
        decreases |holes| - i
      {
        HeapBlock(mem, heapStart, end, cuts, holes, usedBytes, pages, i);
        FitTest(cuts, holes, full, i);
        hsize := GetWord(mem, h);
        var isHole, isLast := mem[h + 4] != 0, mem[h + 5] != 0;
        if !(isLast && !CouldFitPageTable(h, hsize, full)) && isHole && hsize >= full {
          if hsize == full || hsize - full >= HEADER + FOOTER {
            return true, h, hsize, i;
          }
        }
        if isLast {
          return false, h, hsize, i;
        }
        h := h + hsize;
        i := i + 1;
      }
    }

    // Allocating `full` bytes in block i, all of it or its front.
    method Place(h: nat, hsize: u32, full: u32, ghost i: nat)
      requires Valid() && i < |holes| && holes[i] && h == cuts[i] && hsize == cuts[i + 1] - h
      requires OVERHEAD <= full && (full == hsize || full + OVERHEAD <= hsize)
      requires hsize == full ==> i < |holes| - 1
      modifies this`mem, this`usedBytes, this`cuts, this`holes
      ensures Valid() && usedBytes == old(usedBytes) + full - OVERHEAD
      ensures cuts == PlacedCuts(old(cuts), i, full) && holes == PlacedHoles(old(cuts), old(holes), i, full)
      ensures LiveSame(old(mem), mem, old(cuts), old(holes)) && SameOutside(old(mem), mem, heapStart, end)
    {
      hide HeapOk, LiveSame, SameOutside, SpliceCuts, SpliceHoles, Ordered;
      Shape(mem, heapStart, end, cuts, holes, usedBytes, pages);
      HeapBlock(mem, heapStart, end, cuts, holes, usedBytes, pages, i);
      if hsize == full {
        TakeWhole(h, full, i);
      } else {
        TakePart(h, hsize, full, i);
      }
      HoleRewritten(old(mem), mem, old(cuts), old(holes), i);
      Widen(old(mem), mem, h, h + hsize, heapStart, end);
    }

    // One more page for the last block, if there is memory and a page table for it.
    method GrowByPage(h: nat, hsize: u32, ghost i: nat) returns (failure: Option<Allocation>)
      requires Valid() && i == |holes| - 1 && h == cuts[i] && hsize == cuts[i + 1] - h
      modifies this`mem, this`pages, this`cuts, this`end
      ensures Valid() && LiveSame(old(mem), mem, old(cuts), old(holes)) && |mem| == |old(mem)|
      ensures SameOutside(old(mem), mem, heapStart, old(end))
      ensures match failure
              case None =>
                cuts == Grown(old(cuts), 1) && end == old(end) + PAGE <= |mem| && PageAvailable(old(end), |mem|, tables)
              case Some(f) => cuts == old(cuts) && end == old(end) && Refused(f, end, |mem|, tables)
    {
      hide HeapOk, LiveSame, SameOutside, Ordered, GetWord, BlockAt, FooterAt, Grown, PageStart;
      Shape(mem, heapStart, end, cuts, holes, usedBytes, pages);
      Untouched(mem, cuts, holes, heapStart, end);
      HeapBlock(mem, heapStart, end, cuts, holes, usedBytes, pages, i);
      StartOfPage(end);
      var addr := PageStart(h + hsize);
      if addr + 4096 <= |mem| && addr / 0x40_0000 !in tables {
        return Some(NeedsPageTable);
      }
      var res := AllocPage(addr);
      if !res {
        return Some(OutOfMemory);
      }
      Extend(h, hsize, i);
      HoleRewritten(old(mem), mem, old(cuts), old(holes), i);
      assert |mem| == |old(mem)| by {
        SameLength(old(mem), mem, h, old(end));
      }
      Widen(old(mem), mem, h, old(end), heapStart, old(end));
      failure := None;
    }

    // heap_malloc, unaligned. `at` is the block used and `grown` the number of
    // pages by which the heap grew first.
    method HeapMalloc(size: u32) returns (r: Allocation, ghost at: nat, ghost grown: nat)
      requires Valid() && size + OVERHEAD < TWO32
      modifies this
      ensures Valid() && SameOutside(old(mem), mem, heapStart, end)
      ensures Malloced(size, r, at, grown, tables, old(mem), old(cuts), old(holes), old(usedBytes), old(end),
                       mem, cuts, holes, usedBytes, end)
      ensures r.Block? <==> CanServe(old(cuts), old(holes), size + OVERHEAD, old(end), |old(mem)|, tables)
      decreases |mem| - end
    {
      hide HeapOk, LiveSame, SameOutside, Fits, NoneFitsBefore, Ordered, PlacedCuts, PlacedHoles, Grown, Malloced,
           CanServe, PageAvailable, Refused;
      r, at, grown := MallocOrGrow(size);
      ServedIffPossible(size, r, at, grown, tables, old(mem), old(cuts), old(holes), old(usedBytes), old(end),
                        mem, cuts, holes, usedBytes, end);
    }

    // The body of heap_malloc; when no block fits it calls itself on the grown heap.
    method MallocOrGrow(size: u32) returns (r: Allocation, ghost at: nat, ghost grown: nat)
      requires Valid() && size + OVERHEAD < TWO32
      modifies this
      ensures Valid() && old(end) <= end && SameOutside(old(mem), mem, heapStart, end)
      ensures Malloced(size, r, at, grown, tables, old(mem), old(cuts), old(holes), old(usedBytes), old(end),
                       mem, cuts, holes, usedBytes, end)
      decreases |mem| - end
    {
      hide HeapOk, LiveSame, SameOutside, Fits, NoneFitsBefore, Ordered, PlacedCuts, PlacedHoles, Grown,
           Malloced, PageAvailable;
      Shape(mem, heapStart, end, cuts, holes, usedBytes, pages);
      var full: u32 := size + OVERHEAD;
      at, grown := 0, 0;
      var fit, h, hsize, i := FirstFit(full);
      if fit {
        Place(h, hsize, full, i);
        r, at := Block(h + HEADER), i;
        MallocedAtOnce(size, r, at, tables, old(mem), old(cuts), old(holes), old(usedBytes), end,
                       mem, cuts, holes, usedBytes);
        return;
      }
      var failure := GrowByPage(h, hsize, i);
      if failure.Some? {
        r := failure.value;
        MallocedAtOnce(size, r, at, tables, old(mem), old(cuts), old(holes), old(usedBytes), end,
                       mem, cuts, holes, usedBytes);
        return;
      }
      ghost var m1, again, end1 := mem, 0, end;
      r, at, again := MallocOrGrow(size);
      MallocedAfterGrowth(size, r, at, again, tables, old(mem), old(cuts), old(holes), old(usedBytes), old(end),
                          m1, mem, cuts, holes, usedBytes, end);
      grown := again + 1;
      GrownFrame(old(mem), m1, mem, heapStart, old(end), end);
    }

    // merge_left: the hole at t joins a hole on its left, if there is one.
    method MergeLeft(t: nat, ghost tEnd: int, ghost last: bool, ghost l: int, ghost leftHole: bool)
      returns (merged: bool, left: nat)
      requires |mem| <= MAX_MEMORY && BlockAt(mem, t, tEnd, true, last)
      requires t != heapStart ==> FooterAt(mem, l, t) && BlockAt(mem, l, t, leftHole, false)
      modifies this`mem
      ensures merged <==> t != heapStart && leftHole
      ensures !merged ==> mem == old(mem)
      ensures merged ==> left == l && SameOutside(old(mem), mem, l, tEnd)
                         && BlockAt(mem, l, tEnd, true, last) && FooterAt(mem, l, tEnd)
                         && BlockAt(mem, t, tEnd, true, last)
    {
      left := 0;
      if t == heapStart {
        return false, left;
      }
      left := GetWord(mem, t - FOOTER);
      if mem[left + 4] == 0 {
        return false, left;
      }
      var tSize := GetWord(mem, t);
      var m1 := PutWord(mem, left, GetWord(mem, left) + tSize);
      var m2 := PutByte(m1, left + 5, m1[t + 5]);
      var m3 := PutWord(m2, t + tSize - FOOTER, left);
      hide GetWord, PutWord, PutByte;
      WordUnchanged(m1, m2, left + 5, left + 6, left);
      assert BlockAt(m2, l, tEnd, true, last) && FooterAt(m3, l, tEnd);
      assert SameOutside(mem, mem, l, tEnd);
      hide SameOutside;
      BlockUnchanged(mem, m1, left, left + 4, t, tEnd, true, last);
      BlockUnchanged(m1, m2, left + 5, left + 6, t, tEnd, true, last);
      BlockUnchanged(m2, m3, tEnd - FOOTER, tEnd, t, tEnd, true, last);
      BlockUnchanged(m2, m3, tEnd - FOOTER, tEnd, l, tEnd, true, last);
      Compose(mem, mem, m1, l, tEnd, left, left + 4);
      Compose(mem, m1, m2, l, tEnd, left + 5, left + 6);
      Compose(mem, m2, m3, l, tEnd, tEnd - FOOTER, tEnd);
      mem := m3;
      merged := true;
    }

    // merge_right: the hole at t takes in a hole on its right, if there is one.
    // The code never carries the last mark over; carryLast says what if it did.
    method MergeRight(t: nat, carryLast: bool, ghost tEnd: int, ghost last: bool,
                      ghost rEnd: int, ghost rightHole: bool, ghost rightLast: bool)
      returns (merged: bool)
      requires |mem| <= MAX_MEMORY && BlockAt(mem, t, tEnd, true, last)
      requires !last ==> BlockAt(mem, tEnd, rEnd, rightHole, rightLast)
      modifies this`mem
      ensures merged <==> !last && rightHole
      ensures !merged ==> mem == old(mem)
      ensures merged ==> SameOutside(old(mem), mem, t, rEnd)
                         && BlockAt(mem, t, rEnd, true, carryLast && rightLast) && FooterAt(mem, t, rEnd)
                         && BlockAt(mem, tEnd, rEnd, true, rightLast)
      ensures GetWord(mem, tEnd - FOOTER) == old(GetWord(mem, tEnd - FOOTER))
    {
      hide GetWord, PutWord, PutByte, BlockAt, FooterAt, SameOutside;
      HeaderSays(mem, t, tEnd, true, last);
      if mem[t + 5] != 0 {
        return false;
      }
      HeaderSays(mem, tEnd, rEnd, rightHole, rightLast);
      var right := t + GetWord(mem, t);
      var rSize := GetWord(mem, right);
      if mem[right + 4] == 0 {
        return false;
      }
      var m0 := if carryLast then PutByte(mem, t + 5, mem[right + 5]) else mem;
      var m1 := PutWord(m0, t, GetWord(mem, t) + rSize);
      var m2 := PutWord(m1, right + rSize - FOOTER, t);
      CarryingMark(mem, t, tEnd, rEnd, carryLast, rightLast);
      TakingIn(m0, t, tEnd, rEnd, carryLast && rightLast, rightLast);
      Compose(mem, m0, m2, t, rEnd, t, rEnd);
      mem := m2;
      merged := true;
    }

    // The start of heap_free: block i, in use, becomes a hole of its own.
    method MarkFree(h: nat, ghost i: nat) returns (blockSize: int)
      requires Valid() && i < |holes| && !holes[i] && h == cuts[i]
      modifies this`mem, this`usedBytes
      ensures blockSize == cuts[i + 1] - h - OVERHEAD && usedBytes == old(usedBytes) - blockSize
      ensures i + 1 < |holes| && |mem| <= MAX_MEMORY && SameOutside(old(mem), mem, h, cuts[i + 1])
      ensures BlockAt(mem, h, cuts[i + 1], true, false) && FooterAt(mem, h, cuts[i + 1])
      ensures i == 0 <==> h == heapStart
      ensures i > 0 ==> BlockAt(mem, cuts[i - 1], h, holes[i - 1], false) && FooterAt(mem, cuts[i - 1], h)
      ensures BlockAt(mem, cuts[i + 1], cuts[i + 2], holes[i + 1], i + 1 == |holes| - 1)
    {
      hide HeapOk, GetWord, BlockAt, FooterAt, SameOutside, Ordered, PutByte;
      Shape(mem, heapStart, end, cuts, holes, usedBytes, pages);
      HeapBlock(mem, heapStart, end, cuts, holes, usedBytes, pages, i);
      HeapBlock(mem, heapStart, end, cuts, holes, usedBytes, pages, i + 1);
      FlagHole(mem, h, cuts[i + 1], false, 1);
      blockSize := GetWord(mem, h) - HEADER - FOOTER;
      usedBytes := usedBytes - blockSize;
      var m1 := PutByte(mem, h + 4, 1);
      BlockUnchanged(mem, m1, h + 4, h + 5, cuts[i + 1], cuts[i + 2], holes[i + 1], i + 1 == |holes| - 1);
      if i > 0 {
        HeapBlock(mem, heapStart, end, cuts, holes, usedBytes + blockSize, pages, i - 1);
        BlockUnchanged(mem, m1, h + 4, h + 5, cuts[i - 1], h, holes[i - 1], false);
        FooterUnchanged(mem, m1, h + 4, h + 5, cuts[i - 1], h);
      }
      mem := m1;
    }

    // The first half of heap_free: the block becomes a hole and joins one on its left.
    method FreeLeft(h: nat, ghost i: nat) returns (blockSize: int, merged: bool, left: nat)
      requires Valid() && i < |holes| && !holes[i] && h == cuts[i]
      modifies this`mem, this`usedBytes
      ensures blockSize == cuts[i + 1] - h - OVERHEAD && usedBytes == old(usedBytes) - blockSize
      ensures i + 1 < |holes| && |mem| <= MAX_MEMORY
      ensures merged <==> i > 0 && holes[i - 1]
      ensures merged ==> left == cuts[i - 1]
      ensures var a, e := FirstMerged(holes, i), cuts[i + 1];
              && SameOutside(old(mem), mem, cuts[a], e)
              && BlockAt(mem, cuts[a], e, true, false) && FooterAt(mem, cuts[a], e) && BlockAt(mem, h, e, true, false)
              && BlockAt(mem, e, cuts[i + 2], holes[i + 1], i + 1 == |holes| - 1)
    {
      hide HeapOk, BlockAt, FooterAt, SameOutside, Ordered;
      Shape(mem, heapStart, end, cuts, holes, usedBytes, pages);
      Neighbours(mem, heapStart, end, cuts, holes, usedBytes, pages, i);
      ghost var a, e, m0 := FirstMerged(holes, i), cuts[i + 1], mem;
      blockSize := MarkFree(h, i);
      ghost var m1 := mem;
      merged, left := MergeLeft(h, e, false, if i > 0 then cuts[i - 1] else 0, a < i);
      if merged {
        Widen(m0, m1, h, e, cuts[a], e);
        Compose(m0, m1, mem, cuts[a], e, cuts[a], e);
        BlockUnchanged(m1, mem, cuts[a], e, e, cuts[i + 2], holes[i + 1], i + 1 == |holes| - 1);
      }
    }

    // heap_free as written: merge_right is given the freed header even when it
    // has just been absorbed on the left, and never carries the last mark. The
    // heap stays well formed, with the block and the holes around it made one,
    // exactly when FreesCleanly holds; Spoiled says what is left otherwise.
    method HeapFree(ptr: nat, ghost i: nat) returns (blockSize: int)
      requires Valid() && i < |holes| && !holes[i] && ptr == cuts[i] + HEADER
      modifies this
      ensures end == old(end) && i + 1 < |old(holes)| == |old(cuts)| - 1
      ensures blockSize == old(cuts)[i + 1] - old(cuts)[i] - OVERHEAD && usedBytes == old(usedBytes) - blockSize
      ensures FreesCleanly(old(holes), i) ==>
                && Valid()
                && cuts == SpliceCuts(old(cuts), FirstMerged(old(holes), i), LastMerged(old(holes), i), [])
                && holes == SpliceHoles(old(holes), FirstMerged(old(holes), i), LastMerged(old(holes), i), [true])
      ensures !FreesCleanly(old(holes), i) ==> Spoiled(mem, heapStart, end, old(cuts), old(holes), i)
      ensures SameOutside(old(mem), mem, heapStart, end)
      ensures OthersSame(old(mem), mem, old(cuts), old(holes), i)
    {
      hide HeapOk, BlockAt, FooterAt, SameOutside, SpliceCuts, SpliceHoles, OthersSame, Ordered, Spoiled, GetWord;
      Shape(mem, heapStart, end, cuts, holes, usedBytes, pages);
      Neighbours(mem, heapStart, end, cuts, holes, usedBytes, pages, i);
      ghost var a, b := FirstMerged(holes, i), LastMerged(holes, i);
      ghost var e, f, rightLast := cuts[i + 1], cuts[i + 2], i + 1 == |holes| - 1;
      ghost var m0, used0 := mem, usedBytes;
      var h, merged, left := ptr - HEADER, false, 0;
      blockSize, merged, left := FreeLeft(h, i);
      ghost var m1 := mem;
      var mergedRight := MergeRight(h, false, e, false, f, holes[i + 1], rightLast);
      if mergedRight {
        Widen(m0, m1, cuts[a], e, cuts[a], f);
        Compose(m0, m1, mem, cuts[a], f, h, f);
        FooterKept(m1, mem, cuts[a], e);
      }
      NeighboursRewritten(m0, mem, cuts, holes, a, i, b);
      WithinHeap(m0, mem, heapStart, end, cuts, holes, a, b);
      if FreesCleanly(holes, i) {
        MergeTiled(m0, mem, heapStart, end, cuts, holes, used0, pages, a, b);
        MergeOk(m0, mem, heapStart, end, cuts, holes, used0, pages, a, i, b);
        cuts, holes := SpliceCuts(cuts, a, b, []), SpliceHoles(holes, a, b, [true]);
      } else {
        if a < i {
          BlockUnchanged(m1, mem, h, f, cuts[a], e, true, false);
        }
        FreedBadly(m0, mem, heapStart, end, cuts, holes, used0, pages, i);
      }
    }

    // heap_free with its two slips mended: merge_right gets the header that
    // survived, and the last mark is carried over.
    method HeapFreeMended(ptr: nat, ghost i: nat) returns (blockSize: int)
      requires Valid() && i < |holes| && !holes[i] && ptr == cuts[i] + HEADER
      modifies this
      ensures Valid() && end == old(end)
      ensures blockSize == old(cuts)[i + 1] - old(cuts)[i] - OVERHEAD && usedBytes == old(usedBytes) - blockSize
      ensures cuts == SpliceCuts(old(cuts), FirstMerged(old(holes), i), LastMerged(old(holes), i), [])
      ensures holes == SpliceHoles(old(holes), FirstMerged(old(holes), i), LastMerged(old(holes), i), [true])
      ensures SameOutside(old(mem), mem, heapStart, end)
      ensures OthersSame(old(mem), mem, old(cuts), old(holes), i)
    {
      hide HeapOk, BlockAt, FooterAt, SameOutside, SpliceCuts, SpliceHoles, OthersSame, Ordered, GetWord;
      Shape(mem, heapStart, end, cuts, holes, usedBytes, pages);
      Neighbours(mem, heapStart, end, cuts, holes, usedBytes, pages, i);
      ghost var a, b := FirstMerged(holes, i), LastMerged(holes, i);
      ghost var e, f, rightLast := cuts[i + 1], cuts[i + 2], i + 1 == |holes| - 1;
      ghost var m0, used0 := mem, usedBytes;
      var h, merged, left := ptr - HEADER, false, 0;
      blockSize, merged, left := FreeLeft(h, i);
      ghost var m1 := mem;
      var mergedRight := MergeRight(if merged then left else h, true, e, false, f, holes[i + 1], rightLast);
      if mergedRight {
        Widen(m0, m1, cuts[a], e, cuts[a], f);
        Compose(m0, m1, mem, cuts[a], f, cuts[a], f);
      }
      NeighboursRewritten(m0, mem, cuts, holes, a, i, b);
      WithinHeap(m0, mem, heapStart, end, cuts, holes, a, b);
      MergeTiled(m0, mem, heapStart, end, cuts, holes, used0, pages, a, b);
      MergeOk(m0, mem, heapStart, end, cuts, holes, used0, pages, a, i, b);
      cuts, holes := SpliceCuts(cuts, a, b, []), SpliceHoles(holes, a, b, [true]);
    }
  }
}
