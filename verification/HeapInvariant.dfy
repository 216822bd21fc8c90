// The invariant of the kernel heap (src/heap.c), and why each way of rewriting
// its blocks keeps it.
module HeapInvariant {
  import opened Words
  import opened RawMemory
  import opened HeapModel

  // The heap lies well below the top of the 32-bit address space.
  const MAX_MEMORY := 0xFFFF_C000

  // ---------- the heap invariant and what the operations do to it ----------

  // Every page of [start, end), by page number, is mapped.
  ghost predicate Mapped(pages: set<int>, start: int, end: int) {
    forall k :: start / PAGE <= k < end / PAGE ==> k in pages
  }

  // Memory holds exactly these blocks, page-aligned at both ends and mapped, and
  // `used` counts the payload of those in use.
  ghost predicate HeapOk(m: Memory, start: int, end: int, cuts: seq<int>, holes: seq<bool>, used: int,
                         pages: set<int>) {
    && |m| <= MAX_MEMORY
    && Tiled(m, start, end, cuts, holes)
    && start % PAGE == 0 && end % PAGE == 0
    && Mapped(pages, start, end)
    && used == Used(cuts, holes, |holes|)
  }

  lemma BlockFacts(m: Memory, start: int, end: int, cuts: seq<int>, holes: seq<bool>, i: nat)
    requires Tiled(m, start, end, cuts, holes) && i < |holes|
    ensures 0 <= start <= cuts[i] && cuts[i] + OVERHEAD <= cuts[i + 1] <= end <= |m|
    ensures BlockAt(m, cuts[i], cuts[i + 1], holes[i], i == |holes| - 1)
    ensures i < |holes| - 1 ==> FooterAt(m, cuts[i], cuts[i + 1])
    ensures i < |holes| - 1 ==> !(holes[i] && holes[i + 1])
    ensures i > 0 ==> !(holes[i - 1] && holes[i]) && start < cuts[i]
    ensures i == |holes| - 1 ==> holes[i] && cuts[i + 1] == end
  {
    hide GetWord;
    assert BlockAt(m, cuts[|holes| - 1], cuts[|holes|], holes[|holes| - 1], true);
    assert BlockAt(m, cuts[0], cuts[1], holes[0], 0 == |holes| - 1);
  }

  lemma MorePages(m: Memory, start: int, end: int, cuts: seq<int>, holes: seq<bool>, used: int,
                  pages: set<int>, more: set<int>)
    requires HeapOk(m, start, end, cuts, holes, used, pages)
    ensures HeapOk(m, start, end, cuts, holes, used, pages + more)
  {
    hide Tiled, Used;
  }

  lemma Shape(m: Memory, start: int, end: int, cuts: seq<int>, holes: seq<bool>, used: int, pages: set<int>)
    requires HeapOk(m, start, end, cuts, holes, used, pages)
    ensures |m| <= MAX_MEMORY && start % PAGE == 0 && end % PAGE == 0
    ensures |cuts| == |holes| + 1 && holes != [] && holes[|holes| - 1]
    ensures cuts[0] == start && cuts[|holes|] == end && Ordered(cuts)
  {
    hide Blocks, Ordered, Used, Mapped;
  }

  // What the header and footer of a block say.
  lemma HeapBlock(m: Memory, start: int, end: int, cuts: seq<int>, holes: seq<bool>, used: int, pages: set<int>,
                  i: nat)
    requires HeapOk(m, start, end, cuts, holes, used, pages) && i < |holes|
    ensures |cuts| == |holes| + 1
    ensures 0 <= start <= cuts[i] && cuts[i] + OVERHEAD <= cuts[i + 1] <= end <= |m| <= MAX_MEMORY
    ensures GetWord(m, cuts[i]) == cuts[i + 1] - cuts[i]
    ensures (m[cuts[i] + 4] != 0) == holes[i] && (m[cuts[i] + 5] != 0) == (i == |holes| - 1)
    ensures BlockAt(m, cuts[i], cuts[i + 1], holes[i], i == |holes| - 1)
    ensures i < |holes| - 1 ==> FooterAt(m, cuts[i], cuts[i + 1]) && !(holes[i] && holes[i + 1])
    ensures i > 0 ==> !(holes[i - 1] && holes[i]) && start < cuts[i]
    ensures i == |holes| - 1 ==> holes[i] && cuts[i + 1] == end
  {
    BlockFacts(m, start, end, cuts, holes, i);
    hide GetWord, Tiled, Used, Mapped;
  }

  lemma InitialOk(m: Memory, start: int, end: int, pages: set<int>)
    requires |m| <= MAX_MEMORY && BlockAt(m, start, end, true, true)
    requires start % PAGE == 0 && end % PAGE == 0 && Mapped(pages, start, end)
    ensures HeapOk(m, start, end, [start, end], [true], 0, pages)
  {
    hide GetWord;
    assert Used([start, end], [true], 1) == Used([start, end], [true], 0) == 0;
    assert Blocks(m, [start, end], [true]);
    assert Tiled(m, start, end, [start, end], [true]);
  }

  lemma TakeWholeUsed(cuts: seq<int>, holes: seq<bool>, i: nat)
    requires |cuts| == |holes| + 1 && i < |holes| && holes[i]
    ensures Used(cuts, holes[i := false], |holes|) ==
            Used(cuts, holes, |holes|) + (cuts[i + 1] - cuts[i] - OVERHEAD)
  {
    assert SpliceCuts(cuts, i, i, []) == cuts && SpliceHoles(holes, i, i, [false]) == holes[i := false];
    UsedSplice(cuts, holes, i, i, [], [false]);
  }

  // One block in place of blocks a..b.
  lemma OneRewritten(m: Memory, cuts: seq<int>, holes: seq<bool>, a: nat, b: nat, hole: bool)
    requires |cuts| == |holes| + 1 && a <= b < |holes|
    requires BlockAt(m, cuts[a], cuts[b + 1], hole, b == |holes| - 1)
    requires b < |holes| - 1 ==> FooterAt(m, cuts[a], cuts[b + 1])
    ensures Rewritten(m, cuts, holes, a, b, [], [hole]) && Ordered([cuts[a]] + [] + [cuts[b + 1]])
  {
    hide GetWord;
    assert [cuts[a]] + [] + [cuts[b + 1]] == [cuts[a], cuts[b + 1]];
  }

  lemma TakeWholeTiled(m: Memory, m': Memory, start: int, end: int, cuts: seq<int>, holes: seq<bool>, i: nat)
    requires Tiled(m, start, end, cuts, holes) && i < |holes| - 1
    requires SameOutside(m, m', cuts[i], cuts[i + 1])
    requires BlockAt(m', cuts[i], cuts[i + 1], false, false) && FooterAt(m', cuts[i], cuts[i + 1])
    ensures Tiled(m', start, end, cuts, holes[i := false])
  {
    hide GetWord, BlockAt, FooterAt, Blocks, Ordered, SameOutside, Rewritten;
    assert SpliceCuts(cuts, i, i, []) == cuts && SpliceHoles(holes, i, i, [false]) == holes[i := false];
    OneRewritten(m', cuts, holes, i, i, false);
    Splice(m, m', start, end, cuts, holes, i, i, [], [false]);
  }

  lemma TakeWholeOk(m: Memory, m': Memory, start: int, end: int, cuts: seq<int>, holes: seq<bool>, used: int,
                    pages: set<int>, i: nat)
    requires HeapOk(m, start, end, cuts, holes, used, pages) && i < |holes| - 1 && holes[i]
    requires SameOutside(m, m', cuts[i], cuts[i + 1])
    requires BlockAt(m', cuts[i], cuts[i + 1], false, false) && FooterAt(m', cuts[i], cuts[i + 1])
    ensures HeapOk(m', start, end, cuts, holes[i := false], used + (cuts[i + 1] - cuts[i] - OVERHEAD), pages)
  {
    hide BlockAt, FooterAt, Used, Blocks, Ordered, Coalesced;
    TakeWholeTiled(m, m', start, end, cuts, holes, i);
    TakeWholeUsed(cuts, holes, i);
  }

  lemma TakePartUsed(cuts: seq<int>, holes: seq<bool>, i: nat, p: int)
    requires |cuts| == |holes| + 1 && i < |holes| && holes[i]
    ensures var c := SpliceCuts(cuts, i, i, [p]);
            var h := SpliceHoles(holes, i, i, [false, true]);
            && |c| == |h| + 1
            && Used(c, h, |h|) == Used(cuts, holes, |holes|) + (p - cuts[i] - OVERHEAD)
  {
    UsedSplice(cuts, holes, i, i, [p], [false, true]);
  }

  lemma TakePartTiled(m: Memory, m': Memory, start: int, end: int, cuts: seq<int>, holes: seq<bool>, i: nat, p: int)
    requires Tiled(m, start, end, cuts, holes) && i < |holes| && holes[i]
    requires SameOutside(m, m', cuts[i], cuts[i + 1])
    requires BlockAt(m', cuts[i], p, false, false) && FooterAt(m', cuts[i], p)
    requires BlockAt(m', p, cuts[i + 1], true, i == |holes| - 1) && FooterAt(m', p, cuts[i + 1])
    ensures Tiled(m', start, end, SpliceCuts(cuts, i, i, [p]), SpliceHoles(holes, i, i, [false, true]))
  {
    assert [cuts[i]] + [p] + [cuts[i + 1]] == [cuts[i], p, cuts[i + 1]];
    hide GetWord;
    Splice(m, m', start, end, cuts, holes, i, i, [p], [false, true]);
  }

  lemma TakePartOk(m: Memory, m': Memory, start: int, end: int, cuts: seq<int>, holes: seq<bool>, used: int,
                   pages: set<int>, i: nat, p: int)
    requires HeapOk(m, start, end, cuts, holes, used, pages) && i < |holes| && holes[i]
    requires SameOutside(m, m', cuts[i], cuts[i + 1])
    requires BlockAt(m', cuts[i], p, false, false) && FooterAt(m', cuts[i], p)
    requires BlockAt(m', p, cuts[i + 1], true, i == |holes| - 1) && FooterAt(m', p, cuts[i + 1])
    ensures HeapOk(m', start, end, SpliceCuts(cuts, i, i, [p]), SpliceHoles(holes, i, i, [false, true]),
                   used + (p - cuts[i] - OVERHEAD), pages)
    ensures |SpliceCuts(cuts, i, i, [p])| == |SpliceHoles(holes, i, i, [false, true])| + 1
  {
    hide BlockAt, FooterAt, Used, Blocks, Ordered, Coalesced, SpliceCuts, SpliceHoles;
    TakePartTiled(m, m', start, end, cuts, holes, i, p);
    TakePartUsed(cuts, holes, i, p);
  }

  lemma ExtendTiled(m: Memory, m': Memory, start: int, end: int, cuts: seq<int>, holes: seq<bool>)
    requires Tiled(m, start, end, cuts, holes)
    requires SameOutside(m, m', cuts[|holes| - 1], end)
    requires BlockAt(m', cuts[|holes| - 1], end + PAGE, true, true)
    ensures Tiled(m', start, end + PAGE, Grown(cuts, 1), holes)
  {
    hide GetWord;
    var n := |holes| - 1;
    var c := Grown(cuts, 1);
    forall j | 0 <= j < n
      ensures BlockAt(m', c[j], c[j + 1], holes[j], false) && FooterAt(m', c[j], c[j + 1])
    {
      BlockKept(m, m', cuts, holes, cuts[n], end, j);
    }
  }

  lemma ExtendUsed(cuts: seq<int>, holes: seq<bool>)
    requires |cuts| == |holes| + 1 && holes != [] && holes[|holes| - 1]
    ensures Used(Grown(cuts, 1), holes, |holes|) == Used(cuts, holes, |holes|)
  {
    UsedPrefix(cuts, holes, Grown(cuts, 1), holes, |holes| - 1);
  }

  lemma ExtendOk(m: Memory, m': Memory, start: int, end: int, cuts: seq<int>, holes: seq<bool>, used: int,
                 pages: set<int>)
    requires HeapOk(m, start, end, cuts, holes, used, pages)
    requires end + PAGE <= |m| && end / PAGE in pages
    requires SameOutside(m, m', cuts[|holes| - 1], end)
    requires BlockAt(m', cuts[|holes| - 1], end + PAGE, true, true)
    ensures HeapOk(m', start, end + PAGE, Grown(cuts, 1), holes, used, pages)
  {
    assert holes != [] && holes[|holes| - 1];
    hide BlockAt, FooterAt, Used, Blocks, Ordered, Coalesced, Grown, Mapped;
    ExtendTiled(m, m', start, end, cuts, holes);
    ExtendUsed(cuts, holes);
    MappedMore(pages, start, end);
  }

  lemma MappedMore(pages: set<int>, start: int, end: int)
    requires Mapped(pages, start, end) && end % PAGE == 0 && end / PAGE in pages
    ensures (end + PAGE) % PAGE == 0 && Mapped(pages, start, end + PAGE)
  {
    assert (end + PAGE) / PAGE == end / PAGE + 1;
  }

  ghost predicate OneInUse(holes: seq<bool>, a: nat, i: nat, b: nat) {
    && a <= i <= b < |holes| && i <= a + 1 && b <= i + 1
    && !holes[i] && (a < i ==> holes[a]) && (i < b ==> holes[b])
  }

  lemma MergeUsed(cuts: seq<int>, holes: seq<bool>, a: nat, i: nat, b: nat)
    requires |cuts| == |holes| + 1 && OneInUse(holes, a, i, b)
    ensures var c := SpliceCuts(cuts, a, b, []);
            var h := SpliceHoles(holes, a, b, [true]);
            && |c| == |h| + 1
            && Used(c, h, |h|) == Used(cuts, holes, |holes|) - (cuts[i + 1] - cuts[i] - OVERHEAD)
  {
    assert Used(cuts, holes, i) == Used(cuts, holes, a);
    assert Used(cuts, holes, b + 1) == Used(cuts, holes, i + 1);
    UsedSplice(cuts, holes, a, b, [], [true]);
  }

  // Neighbouring blocks a..b become one hole.
  lemma MergeTiled(m: Memory, m': Memory, start: int, end: int, cuts: seq<int>, holes: seq<bool>, used: int,
                   pages: set<int>, a: nat, b: nat)
    requires HeapOk(m, start, end, cuts, holes, used, pages) && a <= b < |holes|
    requires a > 0 ==> !holes[a - 1]
    requires b < |holes| - 1 ==> !holes[b + 1]
    requires SameOutside(m, m', cuts[a], cuts[b + 1])
    requires BlockAt(m', cuts[a], cuts[b + 1], true, b == |holes| - 1)
    requires b < |holes| - 1 ==> FooterAt(m', cuts[a], cuts[b + 1])
    ensures |m'| == |m| && Tiled(m', start, end, SpliceCuts(cuts, a, b, []), SpliceHoles(holes, a, b, [true]))
  {
    hide GetWord, BlockAt, FooterAt, Blocks, Ordered, Rewritten, SpliceCuts, SpliceHoles, Used, Mapped;
    OneRewritten(m', cuts, holes, a, b, true);
    Splice(m, m', start, end, cuts, holes, a, b, [], [true]);
  }

  // If only block i of them was in use, the heap stays well formed.
  lemma MergeOk(m: Memory, m': Memory, start: int, end: int, cuts: seq<int>, holes: seq<bool>, used: int,
                pages: set<int>, a: nat, i: nat, b: nat)
    requires HeapOk(m, start, end, cuts, holes, used, pages) && OneInUse(holes, a, i, b)
    requires |m'| == |m| && Tiled(m', start, end, SpliceCuts(cuts, a, b, []), SpliceHoles(holes, a, b, [true]))
    ensures HeapOk(m', start, end, SpliceCuts(cuts, a, b, []), SpliceHoles(holes, a, b, [true]),
                   used - (cuts[i + 1] - cuts[i] - OVERHEAD), pages)
    ensures |SpliceCuts(cuts, a, b, [])| == |SpliceHoles(holes, a, b, [true])| + 1
  {
    hide BlockAt, FooterAt, Used, Blocks, Ordered, Coalesced, SpliceCuts, SpliceHoles;
    MergeUsed(cuts, holes, a, i, b);
  }

  // ---------- frees that spoil the heap ----------

  // The headers in front of block k are as they were.
  lemma PrefixKept(m: Memory, m': Memory, start: int, end: int, cuts: seq<int>, holes: seq<bool>, k: nat, hi: int)
    requires Tiled(m, start, end, cuts, holes) && k < |holes| && cuts[k] <= hi
    requires SameOutside(m, m', cuts[k], hi)
    ensures forall j :: 0 <= j < k ==> BlockAt(m', cuts[j], cuts[j + 1], holes[j], false)
  {
    hide GetWord, SameOutside;
    forall j | 0 <= j < k
      ensures BlockAt(m', cuts[j], cuts[j + 1], holes[j], false)
    {
      CutsMonotone(cuts, j + 1, k);
      BlockKept(m, m', cuts, holes, cuts[k], hi, j);
    }
  }

  // A hole written over block k, followed by another hole.
  lemma SpoiledByTwoHoles(m: Memory, m': Memory, start: int, end: int, cuts: seq<int>, holes: seq<bool>, used: int,
                          pages: set<int>, k: nat, x: int, y: int, last: bool)
    requires HeapOk(m, start, end, cuts, holes, used, pages) && k < |holes| && SameOutside(m, m', cuts[k], y)
    requires BlockAt(m', cuts[k], x, true, false) && BlockAt(m', x, y, true, last)
    ensures forall c, h :: !Tiled(m', start, end, c, h)
  {
    PrefixKept(m, m', start, end, cuts, holes, k, y);
    hide HeapOk;
    forall c, h
      ensures !Tiled(m', start, end, c, h)
    {
      AdjacentHolesUntiled(m', start, end, cuts, holes, k, x, y, last, c, h);
    }
  }

  // A hole written over everything from block k on, without the last mark.
  lemma SpoiledByLostMark(m: Memory, m': Memory, start: int, end: int, cuts: seq<int>, holes: seq<bool>, used: int,
                          pages: set<int>, k: nat)
    requires HeapOk(m, start, end, cuts, holes, used, pages) && k < |holes| && SameOutside(m, m', cuts[k], end)
    requires BlockAt(m', cuts[k], end, true, false)
    ensures forall c, h :: !Laid(m', start, end, c, h)
  {
    PrefixKept(m, m', start, end, cuts, holes, k, end);
    hide HeapOk;
    forall c, h
      ensures !Laid(m', start, end, c, h)
    {
      UnmarkedLastUntiled(m', start, end, cuts, holes, k, true, c, h);
    }
  }

  // A hole written over block k, followed by a block whose footer names no header.
  lemma SpoiledByStaleFooter(m: Memory, m': Memory, start: int, end: int, cuts: seq<int>, holes: seq<bool>, used: int,
                             pages: set<int>, k: nat, x: int, y: int)
    requires HeapOk(m, start, end, cuts, holes, used, pages) && k < |holes| && SameOutside(m, m', cuts[k], y)
    requires BlockAt(m', cuts[k], x, true, false) && BlockAt(m', x, y, true, false) && !FooterAt(m', x, y)
    ensures forall c, h :: !Laid(m', start, end, c, h)
  {
    PrefixKept(m, m', start, end, cuts, holes, k, y);
    hide HeapOk;
    forall c, h
      ensures !Laid(m', start, end, c, h)
    {
      StaleFooterUntiled(m', start, end, cuts, holes, k, x, y, true, c, h);
    }
  }

  // Two holes written over everything from block k on still tile the heap.
  lemma StillLaid(m: Memory, m': Memory, start: int, end: int, cuts: seq<int>, holes: seq<bool>, used: int,
                  pages: set<int>, k: nat, x: int)
    requires HeapOk(m, start, end, cuts, holes, used, pages) && k < |holes| && SameOutside(m, m', cuts[k], end)
    requires BlockAt(m', cuts[k], x, true, false) && FooterAt(m', cuts[k], x) && BlockAt(m', x, end, true, true)
    ensures var n := |holes| - 1;
            Laid(m', start, end, SpliceCuts(cuts, k, n, [x]), SpliceHoles(holes, k, n, [true, true]))
  {
    hide Used, Mapped, GetWord, BlockAt, FooterAt, Blocks, Ordered, SameOutside, Rewritten;
    var n := |holes| - 1;
    TwoHolesRewritten(m', cuts, holes, k, x);
    SpliceOrdered(cuts, k, n, [x]);
    SpliceBlocks(m, m', cuts, holes, k, n, [x], [true, true]);
  }

  lemma TwoHolesRewritten(m: Memory, cuts: seq<int>, holes: seq<bool>, k: nat, x: int)
    requires |cuts| == |holes| + 1 && k < |holes|
    requires BlockAt(m, cuts[k], x, true, false) && FooterAt(m, cuts[k], x) && BlockAt(m, x, cuts[|holes|], true, true)
    ensures Rewritten(m, cuts, holes, k, |holes| - 1, [x], [true, true])
    ensures Ordered([cuts[k]] + [x] + [cuts[|holes|]])
  {
    hide GetWord;
    assert [cuts[k]] + [x] + [cuts[|holes|]] == [cuts[k], x, cuts[|holes|]];
  }

  // What surrounds a block in use.
  lemma Neighbours(m: Memory, start: int, end: int, cuts: seq<int>, holes: seq<bool>, used: int, pages: set<int>,
                   i: nat)
    requires HeapOk(m, start, end, cuts, holes, used, pages) && i < |holes| && !holes[i]
    ensures |cuts| == |holes| + 1 && i + 1 < |holes| && 0 <= cuts[i] && cuts[i + 2] <= end <= |m| <= MAX_MEMORY
    ensures cuts[i] + OVERHEAD <= cuts[i + 1] && cuts[i + 1] + OVERHEAD <= cuts[i + 2]
    ensures i > 0 ==> 0 <= cuts[i - 1] && cuts[i - 1] + OVERHEAD <= cuts[i]
    ensures i > 1 && holes[i - 1] ==> !holes[i - 2]
    ensures i + 2 < |holes| && holes[i + 1] ==> !holes[i + 2]
    ensures i + 2 == |holes| ==> holes[i + 1] && cuts[i + 2] == end
  {
    hide HeapOk, BlockAt, FooterAt;
    HeapBlock(m, start, end, cuts, holes, used, pages, i);
    HeapBlock(m, start, end, cuts, holes, used, pages, i + 1);
    if i > 0 {
      HeapBlock(m, start, end, cuts, holes, used, pages, i - 1);
    }
  }
}
