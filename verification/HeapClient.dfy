// Whole runs of the kernel heap: a client that allocates, writes and frees in any
// order finds in every block what it wrote there last.
module HeapClient {
  import opened Words
  import opened RawMemory
  import opened HeapModel
  import opened HeapInvariant
  import opened KernelHeap
  import opened HeapLaws

  // A block the client holds: its payload's address and what should be in it.
  datatype Held = Held(ptr: nat, data: seq<u8>)

  datatype Request =
    | Malloc(size: u32)
    | Free(k: nat)                            // the kth block held
    | Write(k: nat, offset: nat, byte: u8)    // one byte of the kth block held

  predicate Sensible(r: Request, held: seq<Held>) {
    match r
    case Malloc(size) => size + OVERHEAD < TWO32
    case Free(k) => k < |held|
    case Write(k, offset, _) => k < |held| && offset < |held[k].data|
  }

  // Block i of the tiling is the one held.
  ghost predicate Owns(cuts: seq<int>, holes: seq<bool>, i: nat, h: Held) {
    && |cuts| == |holes| + 1 && i < |holes| && !holes[i]
    && cuts[i] + HEADER == h.ptr && cuts[i + 1] - cuts[i] == |h.data| + OVERHEAD
  }

  ghost predicate Owned(cuts: seq<int>, holes: seq<bool>, h: Held) {
    exists i :: Owns(cuts, holes, i, h)
  }

  ghost predicate Intact(m: Memory, h: Held) {
    h.ptr + |h.data| <= |m| && m[h.ptr..h.ptr + |h.data|] == h.data
  }

  ghost predicate AllKept(m: Memory, cuts: seq<int>, holes: seq<bool>, held: seq<Held>) {
    forall h :: h in held ==> Owned(cuts, holes, h) && Intact(m, h)
  }

  ghost predicate Distinct(held: seq<Held>) {
    forall j, k :: 0 <= j < k < |held| ==> held[j].ptr != held[k].ptr
  }

  function Total(held: seq<Held>): nat {
    if held == [] then 0 else |held[0].data| + Total(held[1..])
  }

  function Without(held: seq<Held>, k: nat): (r: seq<Held>)
    requires k < |held|
  {
    held[..k] + held[k + 1..]
  }

  // The client's view fits the heap: its blocks are in use, distinct and intact, and
  // used_bytes is the sum of their sizes.
  ghost predicate Serving(heap: Heap, held: seq<Held>)
    reads heap
  {
    && heap.Valid()
    && AllKept(heap.mem, heap.cuts, heap.holes, held)
    && Distinct(held)
    && heap.usedBytes == Total(held)
  }

  // Two blocks held have no byte in common; between their payloads lie a footer and a
  // header, 12 bytes. Both lie within the heap.
  lemma {:induction false} HeldApart(m: Memory, start: int, end: int, cuts: seq<int>, holes: seq<bool>, used: int,
                                     pages: set<int>, g: Held, h: Held)
    requires HeapOk(m, start, end, cuts, holes, used, pages)
    requires Owned(cuts, holes, g) && Owned(cuts, holes, h) && g.ptr != h.ptr
    ensures g.ptr + |g.data| + 12 <= h.ptr || h.ptr + |h.data| + 12 <= g.ptr
    ensures start + 8 <= g.ptr && g.ptr + |g.data| + 4 <= end
  {
    hide HeapOk, Ordered;
    Shape(m, start, end, cuts, holes, used, pages);
    var i: nat :| Owns(cuts, holes, i, g);
    var j: nat :| Owns(cuts, holes, j, h);
    HeapBlock(m, start, end, cuts, holes, used, pages, i);
    if i < j {
      CutsMonotone(cuts, i + 1, j);
    } else {
      CutsMonotone(cuts, j + 1, i);
    }
  }

  // What a request that was served does to the blocks held.
  ghost predicate Served(r: Request, held: seq<Held>, held': seq<Held>) {
    Sensible(r, held) &&
    match r
    case Malloc(size) => |held'| == |held| + 1 && held'[..|held|] == held && |held'[|held|].data| == size
    case Free(k) => held' == Without(held, k)
    case Write(k, offset, byte) => held' == held[k := Held(held[k].ptr, held[k].data[offset := byte])]
  }

  // --- Blocks survive what happens elsewhere ---

  lemma {:induction false} TotalSplit(held: seq<Held>, k: nat)
    requires k < |held|
    ensures Total(held) == Total(Without(held, k)) + |held[k].data|
  {
    if k > 0 {
      TotalSplit(held[1..], k - 1);
      assert Without(held, k)[1..] == Without(held[1..], k - 1);
      assert Without(held, k)[0] == held[0];
    } else {
      assert Without(held, 0) == held[1..];
    }
  }

  lemma {:induction false} TotalAppend(held: seq<Held>, h: Held)
    ensures Total(held + [h]) == Total(held) + |h.data|
  {
    if held == [] {
      assert [] + [h] == [h] && [h][1..] == [];
    } else {
      TotalAppend(held[1..], h);
      assert (held + [h])[1..] == held[1..] + [h];
    }
  }

  lemma {:induction false} TotalUpdate(held: seq<Held>, k: nat, h: Held)
    requires k < |held| && |h.data| == |held[k].data|
    ensures Total(held[k := h]) == Total(held)
  {
    TotalSplit(held, k);
    TotalSplit(held[k := h], k);
    assert Without(held[k := h], k) == Without(held, k);
  }

  // A block outside the blocks replaced is still there.
  lemma OwnedAfterSplice(cuts: seq<int>, holes: seq<bool>, a: nat, b: nat, mid: seq<int>, mh: seq<bool>, i: nat, h: Held)
    requires a <= b < |holes| && |mh| == |mid| + 1 && Owns(cuts, holes, i, h) && !(a <= i <= b)
    ensures Owned(SpliceCuts(cuts, a, b, mid), SpliceHoles(holes, a, b, mh), h)
  {
    var j := if i < a then i else i - (b - a) + |mid|;
    SpliceBlockAt(cuts, holes, a, b, mid, mh, j);
    hide SpliceCuts, SpliceHoles;
    assert Owns(SpliceCuts(cuts, a, b, mid), SpliceHoles(holes, a, b, mh), j, h);
  }

  lemma OwnedAfterGrowth(cuts: seq<int>, holes: seq<bool>, g: nat, h: Held)
    requires Owned(cuts, holes, h) && holes != [] && holes[|holes| - 1]
    ensures Owned(Grown(cuts, g), holes, h)
  {
    var i :| Owns(cuts, holes, i, h);
    assert Owns(Grown(cuts, g), holes, i, h);
  }

  lemma OwnedAfterPlacing(cuts: seq<int>, holes: seq<bool>, at: nat, full: int, h: Held)
    requires |cuts| == |holes| + 1 && at < |holes| && holes[at] && Owned(cuts, holes, h)
    ensures Owned(PlacedCuts(cuts, at, full), PlacedHoles(cuts, holes, at, full), h)
  {
    var i :| Owns(cuts, holes, i, h);
    if cuts[at + 1] - cuts[at] == full {
      assert Owns(cuts, holes[at := false], i, h);
    } else {
      OwnedAfterSplice(cuts, holes, at, at, [cuts[at] + full], [false, true], i, h);
    }
  }

  lemma PlacedIsOwned(cuts: seq<int>, holes: seq<bool>, at: nat, full: int, h: Held)
    requires |cuts| == |holes| + 1 && at < |holes|
    requires cuts[at] + HEADER == h.ptr && full == |h.data| + OVERHEAD
    ensures Owned(PlacedCuts(cuts, at, full), PlacedHoles(cuts, holes, at, full), h)
  {
    if cuts[at + 1] - cuts[at] == full {
      assert Owns(cuts, holes[at := false], at, h);
    } else {
      SpliceBlockAt(cuts, holes, at, at, [cuts[at] + full], [false, true], at);
      SpliceBlockAt(cuts, holes, at, at, [cuts[at] + full], [false, true], at + 1);
      assert Owns(SpliceCuts(cuts, at, at, [cuts[at] + full]), SpliceHoles(holes, at, at, [false, true]), at, h);
    }
  }

  lemma OwnedAfterFree(cuts: seq<int>, holes: seq<bool>, i: nat, j: nat, h: Held)
    requires |cuts| == |holes| + 1 && i < |holes| && !holes[i] && Owns(cuts, holes, j, h) && j != i
    ensures var a, b := FirstMerged(holes, i), LastMerged(holes, i);
            Owned(SpliceCuts(cuts, a, b, []), SpliceHoles(holes, a, b, [true]), h)
  {
    OwnedAfterSplice(cuts, holes, FirstMerged(holes, i), LastMerged(holes, i), [], [true], j, h);
  }

  // A block in use keeps its bytes when no byte in use differs.
  lemma IntactIfLiveSame(m: Memory, m': Memory, cuts: seq<int>, holes: seq<bool>, h: Held)
    requires Owned(cuts, holes, h) && Intact(m, h) && LiveSame(m, m', cuts, holes)
    ensures Intact(m', h)
  {
    var i :| Owns(cuts, holes, i, h);
    forall x | h.ptr <= x < h.ptr + |h.data|
      ensures m'[x] == m[x]
    {
      assert LiveByte(cuts, holes, x);
    }
  }

  lemma IntactIfOthersSame(m: Memory, m': Memory, cuts: seq<int>, holes: seq<bool>, i: nat, j: nat, h: Held)
    requires i < |holes| && |cuts| == |holes| + 1 && Ordered(cuts)
    requires Owns(cuts, holes, j, h) && j != i && Intact(m, h) && OthersSame(m, m', cuts, holes, i)
    ensures Intact(m', h)
  {
    forall x | h.ptr <= x < h.ptr + |h.data|
      ensures m'[x] == m[x]
    {
      assert LiveByte(cuts, holes, x);
      if j < i {
        CutsMonotone(cuts, j + 1, i);
      } else {
        CutsMonotone(cuts, i + 1, j);
      }
    }
  }

  // Payload writes leave headers and footers alone.
  lemma PayloadWriteOk(m: Memory, x: nat, byte: u8, start: int, end: int, cuts: seq<int>, holes: seq<bool>,
                       used: int, pages: set<int>, i: nat)
    requires HeapOk(m, start, end, cuts, holes, used, pages) && i < |holes| && !holes[i]
    requires cuts[i] + HEADER <= x < cuts[i + 1] - FOOTER && x < |m|
    ensures HeapOk(PutByte(m, x, byte), start, end, cuts, holes, used, pages)
  {
    var m' := PutByte(m, x, byte);
    BlockFacts(m, start, end, cuts, holes, i);
    BlockUnchanged(m, m', x, x + 1, cuts[i], cuts[i + 1], false, false);
    FooterUnchanged(m, m', x, x + 1, cuts[i], cuts[i + 1]);
    assert holes[i := false] == holes;
    hide BlockAt, FooterAt, Used, Blocks, Ordered, Coalesced, PutByte;
    Widen(m, m', x, x + 1, cuts[i], cuts[i + 1]);
    TakeWholeTiled(m, m', start, end, cuts, holes, i);
  }

  // --- Serving requests ---

  // Whether a block of the size can be had from the heap as it stands.
  ghost predicate Possible(heap: Heap, size: u32)
    requires size + OVERHEAD < TWO32
    reads heap
  {
    CanServe(heap.cuts, heap.holes, size + OVERHEAD, heap.end, |heap.mem|, heap.tables)
  }

  // The request is served exactly when it can be; after a refusal the heap cannot
  // serve it, and the reason is the one given.
  method ServeMalloc(heap: Heap, size: u32, held: seq<Held>) returns (r: Allocation, held': seq<Held>)
    requires Serving(heap, held) && size + OVERHEAD < TWO32
    modifies heap
    ensures Serving(heap, held')
    ensures r.Block? <==> old(Possible(heap, size))
    ensures if r.Block? then Served(Malloc(size), held, held') && held'[|held|].ptr == r.ptr
            else held' == held && Refused(r, heap.end, |heap.mem|, heap.tables) && !Possible(heap, size)
  {
    hide HeapOk, Intact, Owned, LiveSame, SameOutside, Ordered, PlacedCuts, PlacedHoles, Grown, Fits, NoneFitsBefore,
         GrewOnlyAsNeeded, Growable, PageAvailable, CanServe;
    Shape(heap.mem, heap.heapStart, heap.end, heap.cuts, heap.holes, heap.usedBytes, heap.pages);
    ghost var at, grown;
    r, at, grown := heap.HeapMalloc(size);
    ServedIffPossible(size, r, at, grown, heap.tables, old(heap.mem), old(heap.cuts), old(heap.holes),
                      old(heap.usedBytes), old(heap.end), heap.mem, heap.cuts, heap.holes, heap.usedBytes, heap.end);
    Shape(heap.mem, heap.heapStart, heap.end, heap.cuts, heap.holes, heap.usedBytes, heap.pages);
    forall h | h in held
      ensures Owned(heap.cuts, heap.holes, h) && Intact(heap.mem, h)
    {
      KeptByMalloc(size, r, at, grown, heap.tables, old(heap.mem), old(heap.cuts), old(heap.holes),
                   old(heap.usedBytes), old(heap.end),
                   heap.mem, heap.cuts, heap.holes, heap.usedBytes, heap.end, h);
    }
    held' := held;
    if r.Block? {
      UsesAHole(r.ptr, size + OVERHEAD, at, Grown(old(heap.cuts), grown), old(heap.holes), heap.cuts, heap.holes);
      ghost var block := Held(r.ptr, seq(size, _ => 0));
      PlacedIsOwned(Grown(old(heap.cuts), grown), old(heap.holes), at, size + OVERHEAD, block);
      InMemory(heap, block);
      var h := Held(r.ptr, heap.mem[r.ptr..r.ptr + size]);
      PlacedIsOwned(Grown(old(heap.cuts), grown), old(heap.holes), at, size + OVERHEAD, h);
      IntactAsRead(heap.mem, r.ptr, size);
      forall k | 0 <= k < |held|
        ensures held[k].ptr != r.ptr
      {
        NewPointer(old(heap.cuts), old(heap.holes), grown, at, held[k], r.ptr);
      }
      TotalAppend(held, h);
      held' := held + [h];
    }
  }

  lemma IntactAsRead(m: Memory, ptr: nat, size: nat)
    requires ptr + size <= |m|
    ensures Intact(m, Held(ptr, m[ptr..ptr + size]))
  {
  }

  lemma UsesAHole(ptr: int, full: u32, at: nat, cuts: seq<int>, holes: seq<bool>, cuts': seq<int>, holes': seq<bool>)
    requires |cuts| == |holes| + 1 && Allocated(ptr, full, at, cuts, holes, cuts', holes')
    ensures at < |holes| && holes[at]
  {
  }

  // malloc keeps every block the client held.
  lemma KeptByMalloc(size: u32, r: Allocation, at: nat, grown: nat, tables: set<int>,
                     m: Memory, cuts: seq<int>, holes: seq<bool>, used: int, end: int,
                     m': Memory, cuts': seq<int>, holes': seq<bool>, used': int, end': int, h: Held)
    requires |cuts| == |holes| + 1 && size + OVERHEAD < TWO32 && holes != [] && holes[|holes| - 1]
    requires Malloced(size, r, at, grown, tables, m, cuts, holes, used, end, m', cuts', holes', used', end')
    requires Owned(cuts, holes, h) && Intact(m, h)
    ensures Owned(cuts', holes', h) && Intact(m', h)
  {
    hide Intact, Owned, LiveSame, PlacedCuts, PlacedHoles, Grown, NoneFitsBefore, GrewOnlyAsNeeded;
    IntactIfLiveSame(m, m', cuts, holes, h);
    OwnedAfterGrowth(cuts, holes, grown, h);
    if r.Block? {
      UsesAHole(r.ptr, size + OVERHEAD, at, Grown(cuts, grown), holes, cuts', holes');
      OwnedAfterPlacing(Grown(cuts, grown), holes, at, size + OVERHEAD, h);
    }
  }

  // The new block lies in memory ...
  lemma InMemory(heap: Heap, h: Held)
    requires heap.Valid() && Owned(heap.cuts, heap.holes, h)
    ensures h.ptr + |h.data| <= |heap.mem|
  {
    var i: nat :| Owns(heap.cuts, heap.holes, i, h);
    BlockFacts(heap.mem, heap.heapStart, heap.end, heap.cuts, heap.holes, i);
  }

  // ... and is none of those held: it was carved out of a hole.
  lemma NewPointer(cuts: seq<int>, holes: seq<bool>, grown: nat, at: nat, h: Held, ptr: int)
    requires |cuts| == |holes| + 1 && Ordered(cuts) && holes != [] && holes[|holes| - 1]
    requires Owned(cuts, holes, h) && at < |holes| && holes[at] && ptr == Grown(cuts, grown)[at] + HEADER
    ensures h.ptr != ptr
  {
    var i: nat :| Owns(cuts, holes, i, h);
    assert Grown(cuts, grown)[at] == cuts[at];
    assert i < at || at < i;
  }

  method ServeFree(heap: Heap, k: nat, held: seq<Held>) returns (held': seq<Held>)
    requires Serving(heap, held) && k < |held|
    modifies heap
    ensures Serving(heap, held') && held' == Without(held, k)
  {
    hide HeapOk, Intact, OthersSame, Ordered, SpliceCuts, SpliceHoles;
    Shape(heap.mem, heap.heapStart, heap.end, heap.cuts, heap.holes, heap.usedBytes, heap.pages);
    assert held[k] in held;
    ghost var i :| Owns(heap.cuts, heap.holes, i, held[k]);
    var blockSize := heap.HeapFreeMended(held[k].ptr, i);
    held' := Without(held, k);
    TotalSplit(held, k);
    forall h | h in held'
      ensures Owned(heap.cuts, heap.holes, h) && Intact(heap.mem, h)
    {
      WithoutMember(held, k, h);
      ghost var j :| Owns(old(heap.cuts), old(heap.holes), j, h);
      OwnedAfterFree(old(heap.cuts), old(heap.holes), i, j, h);
      IntactIfOthersSame(old(heap.mem), heap.mem, old(heap.cuts), old(heap.holes), i, j, h);
    }
  }

  lemma WithoutMember(held: seq<Held>, k: nat, h: Held)
    requires k < |held| && Distinct(held) && h in Without(held, k)
    ensures h in held && h.ptr != held[k].ptr
  {
    var j :| 0 <= j < |Without(held, k)| && Without(held, k)[j] == h;
    assert h == held[if j < k then j else j + 1];
  }

  method ServeWrite(heap: Heap, k: nat, offset: nat, byte: u8, held: seq<Held>) returns (held': seq<Held>)
    requires Serving(heap, held) && k < |held| && offset < |held[k].data|
    modifies heap
    ensures Serving(heap, held')
    ensures held' == held[k := Held(held[k].ptr, held[k].data[offset := byte])]
  {
    hide HeapOk, Ordered;
    Shape(heap.mem, heap.heapStart, heap.end, heap.cuts, heap.holes, heap.usedBytes, heap.pages);
    assert held[k] in held;
    ghost var i :| Owns(heap.cuts, heap.holes, i, held[k]);
    var x := held[k].ptr + offset;
    PayloadWriteOk(heap.mem, x, byte, heap.heapStart, heap.end, heap.cuts, heap.holes, heap.usedBytes, heap.pages, i);
    heap.mem := PutByte(heap.mem, x, byte);
    var h' := Held(held[k].ptr, held[k].data[offset := byte]);
    held' := held[k := h'];
    TotalUpdate(held, k, h');
    forall h | h in held'
      ensures Owned(heap.cuts, heap.holes, h) && Intact(heap.mem, h)
    {
      if h == h' {
        WrittenBlock(old(heap.mem), held[k], offset, byte);
        assert Owns(heap.cuts, heap.holes, i, h');
      } else {
        UpdatedMember(held, k, h', h);
        ghost var j :| Owns(heap.cuts, heap.holes, j, h);
        OneByteElsewhere(old(heap.mem), heap.mem, x, heap.cuts, heap.holes, i, offset, held[k]);
        IntactIfOthersSame(old(heap.mem), heap.mem, heap.cuts, heap.holes, i, j, h);
      }
    }
  }

  lemma WrittenBlock(m: Memory, h: Held, offset: nat, byte: u8)
    requires Intact(m, h) && offset < |h.data|
    ensures Intact(PutByte(m, h.ptr + offset, byte), Held(h.ptr, h.data[offset := byte]))
  {
    var m' := PutByte(m, h.ptr + offset, byte);
    var data' := h.data[offset := byte];
    forall y | 0 <= y < |data'|
      ensures m'[h.ptr..h.ptr + |data'|][y] == data'[y]
    {
      assert m[h.ptr..h.ptr + |h.data|][y] == h.data[y];
    }
  }

  lemma UpdatedMember(held: seq<Held>, k: nat, h': Held, h: Held)
    requires k < |held| && Distinct(held) && h in held[k := h'] && h != h'
    ensures h in held && h.ptr != held[k].ptr
  {
  }

  lemma OneByteElsewhere(m: Memory, m': Memory, x: nat, cuts: seq<int>, holes: seq<bool>, i: nat, offset: nat, h: Held)
    requires Owns(cuts, holes, i, h) && offset < |h.data| && x == h.ptr + offset
    requires SameOutside(m, m', x, x + 1)
    ensures OthersSame(m, m', cuts, holes, i)
  {
  }

  ghost predicate Impossible(heap: Heap, r: Request, held: seq<Held>)
    reads heap
  {
    Sensible(r, held) ==> r.Malloc? && !Possible(heap, r.size)
  }

  // Any run of requests: the heap serves them one after the other, and in the end
  // every block held contains what the client put there last. It stops early only at
  // a request that is not sensible, or at a malloc for which no block of the heap is
  // large enough, however many pages are added.
  method Serve(heap: Heap, requests: seq<Request>) returns (served: nat, ghost trace: seq<seq<Held>>)
    requires Serving(heap, [])
    modifies heap
    ensures served <= |requests| && |trace| == served + 1 && trace[0] == []
    ensures forall n :: 0 <= n < served ==> Served(requests[n], trace[n], trace[n + 1])
    ensures Serving(heap, trace[served])
    ensures served < |requests| ==> Impossible(heap, requests[served], trace[served])
  {
    served := 0;
    var held: seq<Held> := [];
    trace := [[]];
    while served < |requests|
      invariant served <= |requests| && |trace| == served + 1 && trace[0] == [] && trace[served] == held
      invariant forall n :: 0 <= n < served ==> Served(requests[n], trace[n], trace[n + 1])
      invariant Serving(heap, held)
    {
      hide Serving;
      if !Sensible(requests[served], held) {
        return;
      }
      ghost var before := held;
      match requests[served] {
        case Malloc(size) =>
          var r;
          r, held := ServeMalloc(heap, size, held);
          if !r.Block? {
            return;
          }
        case Free(k) => held := ServeFree(heap, k, held);
        case Write(k, offset, byte) => held := ServeWrite(heap, k, offset, byte, held);
      }
      assert Served(requests[served], before, held);
      trace := trace + [held];
      served := served + 1;
    }
  }
}
