// What allocating and freeing mean for the bytes of the heap.
module HeapLaws {
  import opened Words
  import opened RawMemory
  import opened HeapModel
  import opened HeapInvariant
  import opened KernelHeap

  // Heap size = payload in use + 12 bytes per block in use + the holes.
  lemma Accounting(m: Memory, start: int, end: int, cuts: seq<int>, holes: seq<bool>, used: int, pages: set<int>)
    requires HeapOk(m, start, end, cuts, holes, used, pages)
    ensures end - start == used + OVERHEAD * LiveBlocks(holes, |holes|) + HoleBytes(cuts, holes, |holes|)
  {
    HeapBytes(cuts, holes, |holes|);
  }

  // Where block j of a rewritten tiling comes from.
  lemma SpliceBlockAt(cuts: seq<int>, holes: seq<bool>, a: nat, b: nat, mid: seq<int>, mh: seq<bool>, j: nat)
    requires |cuts| == |holes| + 1 && a <= b < |holes| && |mh| == |mid| + 1
    requires j < |holes| + |mid| - (b - a)
    ensures var c := SpliceCuts(cuts, a, b, mid);
            var h := SpliceHoles(holes, a, b, mh);
            var inner := [cuts[a]] + mid + [cuts[b + 1]];
            && |c| == |h| + 1 && |h| == |holes| + |mid| - (b - a)
            && (j < a ==> c[j] == cuts[j] && c[j + 1] == cuts[j + 1] && h[j] == holes[j])
            && (a <= j <= a + |mid| ==> c[j] == inner[j - a] && c[j + 1] == inner[j - a + 1] && h[j] == mh[j - a])
            && (j > a + |mid| ==>
                  var i := j + (b - a) - |mid|;
                  c[j] == cuts[i] && c[j + 1] == cuts[i + 1] && h[j] == holes[i])
  {
  }

  lemma SpliceLiveOnly(cuts: seq<int>, holes: seq<bool>, a: nat, b: nat, mid: seq<int>, mh: seq<bool>, x: int)
    requires |cuts| == |holes| + 1 && Ordered(cuts) && a <= b < |holes| && |mh| == |mid| + 1
    requires |SpliceCuts(cuts, a, b, mid)| == |SpliceHoles(holes, a, b, mh)| + 1
    requires LiveByte(SpliceCuts(cuts, a, b, mid), SpliceHoles(holes, a, b, mh), x)
    ensures (LiveByte(cuts, holes, x) && !(cuts[a] <= x < cuts[b + 1]))
            || LiveByte([cuts[a]] + mid + [cuts[b + 1]], mh, x)
  {
    var c := SpliceCuts(cuts, a, b, mid);
    var h := SpliceHoles(holes, a, b, mh);
    var inner := [cuts[a]] + mid + [cuts[b + 1]];
    var j :| 0 <= j < |h| && !h[j] && c[j] <= x < c[j + 1];
    SpliceBlockAt(cuts, holes, a, b, mid, mh, j);
    hide Ordered, SpliceCuts, SpliceHoles;
    if j < a {
      CutsMonotone(cuts, j + 1, a);
    } else if j <= a + |mid| {
      assert !mh[j - a] && inner[j - a] <= x < inner[j - a + 1];
    } else {
      CutsMonotone(cuts, b + 1, j + (b - a) - |mid|);
    }
  }

  lemma SpliceLiveAll(cuts: seq<int>, holes: seq<bool>, a: nat, b: nat, mid: seq<int>, mh: seq<bool>, x: int)
    requires |cuts| == |holes| + 1 && Ordered(cuts) && a <= b < |holes| && |mh| == |mid| + 1
    requires |SpliceCuts(cuts, a, b, mid)| == |SpliceHoles(holes, a, b, mh)| + 1
    requires (LiveByte(cuts, holes, x) && !(cuts[a] <= x < cuts[b + 1]))
             || LiveByte([cuts[a]] + mid + [cuts[b + 1]], mh, x)
    ensures LiveByte(SpliceCuts(cuts, a, b, mid), SpliceHoles(holes, a, b, mh), x)
  {
    hide Ordered, SpliceCuts, SpliceHoles;
    var inner := [cuts[a]] + mid + [cuts[b + 1]];
    if LiveByte(inner, mh, x) {
      var k :| 0 <= k < |mh| && !mh[k] && inner[k] <= x < inner[k + 1];
      SpliceBlockAt(cuts, holes, a, b, mid, mh, a + k);
    } else {
      var i :| 0 <= i < |holes| && !holes[i] && cuts[i] <= x < cuts[i + 1];
      if a <= i {
        CutsMonotone(cuts, a, i);
      }
      if i <= b {
        CutsMonotone(cuts, i + 1, b + 1);
      }
      SpliceBlockAt(cuts, holes, a, b, mid, mh, if i < a then i else i - (b - a) + |mid|);
    }
  }

  // The bytes in use after blocks a..b were rewritten: those outside, and those of
  // the new blocks in use.
  lemma SpliceLive(cuts: seq<int>, holes: seq<bool>, a: nat, b: nat, mid: seq<int>, mh: seq<bool>, x: int)
    requires |cuts| == |holes| + 1 && Ordered(cuts) && a <= b < |holes| && |mh| == |mid| + 1
    ensures var c := SpliceCuts(cuts, a, b, mid);
            var h := SpliceHoles(holes, a, b, mh);
            var inner := [cuts[a]] + mid + [cuts[b + 1]];
            && |c| == |h| + 1
            && (LiveByte(c, h, x) <==>
                (LiveByte(cuts, holes, x) && !(cuts[a] <= x < cuts[b + 1])) || LiveByte(inner, mh, x))
  {
    SpliceBlockAt(cuts, holes, a, b, mid, mh, a);
    hide LiveByte, Ordered, SpliceCuts, SpliceHoles;
    if LiveByte(SpliceCuts(cuts, a, b, mid), SpliceHoles(holes, a, b, mh), x) {
      SpliceLiveOnly(cuts, holes, a, b, mid, mh, x);
    }
    if (LiveByte(cuts, holes, x) && !(cuts[a] <= x < cuts[b + 1]))
       || LiveByte([cuts[a]] + mid + [cuts[b + 1]], mh, x) {
      SpliceLiveAll(cuts, holes, a, b, mid, mh, x);
    }
  }

  // An allocation adds exactly the bytes of its block to those in use, none of
  // which was in use before.
  lemma AllocationAddsItsBlock(ptr: int, full: u32, at: nat, cuts: seq<int>, holes: seq<bool>,
                               cuts': seq<int>, holes': seq<bool>, x: int)
    requires |cuts| == |holes| + 1 && Ordered(cuts) && full >= OVERHEAD
    requires Allocated(ptr, full, at, cuts, holes, cuts', holes')
    ensures |cuts'| == |holes'| + 1
    ensures var inBlock := ptr - HEADER <= x < ptr - HEADER + full;
            && (inBlock ==> !LiveByte(cuts, holes, x))
            && (LiveByte(cuts', holes', x) <==> LiveByte(cuts, holes, x) || inBlock)
  {
    var lo, hi := cuts[at], cuts[at + 1];
    FitTest(cuts, holes, full, at) by { assert cuts[at] + OVERHEAD <= cuts[at + 1]; }
    if LiveByte(cuts, holes, x) && lo <= x < hi {
      LiveWithin(cuts, holes, at, at, x);
    }
    hide Fits, NoneFitsBefore, Ordered;
    if hi - lo == full {
      assert SpliceCuts(cuts, at, at, []) == cuts && SpliceHoles(holes, at, at, [false]) == holes[at := false];
      SpliceLive(cuts, holes, at, at, [], [false], x);
      OneBlock(lo, hi, false, x);
    } else {
      SpliceLive(cuts, holes, at, at, [lo + full], [false, true], x);
      TwoBlocks(lo, lo + full, hi, x);
    }
  }

  lemma OneBlock(lo: int, hi: int, hole: bool, x: int)
    ensures LiveByte([lo] + [] + [hi], [hole], x) <==> !hole && lo <= x < hi
  {
    var c := [lo] + [] + [hi];
    assert c[0] == lo && c[1] == hi;
    assert [hole][0] == hole;
  }

  lemma TwoBlocks(lo: int, mid: int, hi: int, x: int)
    ensures LiveByte([lo] + [mid] + [hi], [false, true], x) <==> lo <= x < mid
  {
    var c := [lo] + [mid] + [hi];
    assert c[0] == lo && c[1] == mid && c[2] == hi;
    assert ![false, true][0];
  }

  // A free takes exactly the bytes of its block out of use.
  lemma FreeRemovesItsBlock(cuts: seq<int>, holes: seq<bool>, i: nat, x: int)
    requires |cuts| == |holes| + 1 && Ordered(cuts) && i < |holes| && !holes[i]
    ensures var a, b := FirstMerged(holes, i), LastMerged(holes, i);
            var c, h := SpliceCuts(cuts, a, b, []), SpliceHoles(holes, a, b, [true]);
            && |c| == |h| + 1
            && (LiveByte(c, h, x) <==> LiveByte(cuts, holes, x) && !(cuts[i] <= x < cuts[i + 1]))
  {
    var a, b := FirstMerged(holes, i), LastMerged(holes, i);
    SpliceLive(cuts, holes, a, b, [], [true], x);
    OneBlock(cuts[a], cuts[b + 1], true, x);
    CutsMonotone(cuts, a, i);
    CutsMonotone(cuts, i + 1, b + 1);
    if cuts[a] <= x < cuts[b + 1] && LiveByte(cuts, holes, x) {
      LiveWithin(cuts, holes, a, b, x);
    }
  }

  // heap_free as written spoils the heap whenever it frees the block most recently
  // carved out of the last hole: that block's right neighbour is the last hole.
  lemma NewestBlockSpoils(ptr: int, full: u32, cuts: seq<int>, holes: seq<bool>,
                          cuts': seq<int>, holes': seq<bool>)
    requires |cuts| == |holes| + 1 && holes != [] && Ordered(cuts) && full >= OVERHEAD
    requires Allocated(ptr, full, |holes| - 1, cuts, holes, cuts', holes')
    ensures |holes'| == |holes| + 1 && !holes'[|holes| - 1]
    ensures !FreesCleanly(holes', |holes| - 1)
  {
    FitTest(cuts, holes, full, |holes| - 1);
  }

  // What a successful heap_malloc did, in numbers: the block lies in a hole, its payload
  // has the size asked for, between a header of 8 bytes and a footer of 4; holes further
  // to the left are too small; and no byte of a block in use has changed.
  lemma {:induction false} MallocMeans(size: u32, ptr: nat, at: nat, grown: nat, tables: set<int>,
                                       m: Memory, start: int, end: int, cuts: seq<int>, holes: seq<bool>, used: int,
                                       pages: set<int>, m': Memory, cuts': seq<int>, holes': seq<bool>, used': int,
                                       end': int)
    requires HeapOk(m, start, end, cuts, holes, used, pages)
    requires Malloced(size, Block(ptr), at, grown, tables, m, cuts, holes, used, end, m', cuts', holes', used', end')
    requires |cuts'| == |holes'| + 1
    ensures at < |holes| && holes[at] && at < |holes'| && !holes'[at]
    ensures ptr == cuts[at] + 8 == cuts'[at] + 8 && cuts'[at + 1] == ptr + size + 4 && used' == used + size
    ensures forall j :: 0 <= j < at && holes[j] ==>
              cuts[j + 1] - cuts[j] != size + 12 && cuts[j + 1] - cuts[j] < size + 24
    ensures |m'| == |m|
    ensures forall i, x :: 0 <= i < |holes| && !holes[i] && 0 <= x < |m| && cuts[i] <= x < cuts[i + 1] ==> m'[x] == m[x]
  {
    hide HeapOk, GetWord, Ordered;
    Shape(m, start, end, cuts, holes, used, pages);
    forall j | 0 <= j < at && holes[j]
      ensures cuts[j + 1] - cuts[j] != size + 12 && cuts[j + 1] - cuts[j] < size + 24
    {
      HeapBlock(m, start, end, cuts, holes, used, pages, j);
      var c := Grown(cuts, grown);
      assert c[j] == cuts[j] && c[j + 1] == cuts[j + 1];
      assert !Fits(c, holes, size + 12, j);
      FitsIff(c, holes, size + 12, j);
    }
    forall i, x | 0 <= i < |holes| && !holes[i] && 0 <= x < |m| && cuts[i] <= x < cuts[i + 1]
      ensures m'[x] == m[x]
    {
      assert LiveByte(cuts, holes, x);
    }
  }

  // A free changes no byte of another block in use.
  lemma {:induction false} FreeMeans(m: Memory, start: int, end: int, cuts: seq<int>, holes: seq<bool>, used: int,
                                     pages: set<int>, m': Memory, i: nat)
    requires HeapOk(m, start, end, cuts, holes, used, pages) && |cuts| == |holes| + 1 && i < |holes|
    requires OthersSame(m, m', cuts, holes, i)
    ensures forall j, x :: 0 <= j < |holes| && j != i && !holes[j] && 0 <= x < |m| && cuts[j] <= x < cuts[j + 1] ==>
              m'[x] == m[x]
  {
    hide HeapOk, Ordered;
    Shape(m, start, end, cuts, holes, used, pages);
    forall j, x | 0 <= j < |holes| && j != i && !holes[j] && 0 <= x < |m| && cuts[j] <= x < cuts[j + 1]
      ensures m'[x] == m[x]
    {
      assert LiveByte(cuts, holes, x);
      if cuts[i] <= x < cuts[i + 1] {
        WhichBlock(cuts, i, i, j, x);
      }
    }
  }
}
