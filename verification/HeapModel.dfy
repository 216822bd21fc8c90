// The blocks of the kernel heap (src/heap.c) as an abstract tiling, and what the
// headers and footers in memory must say for a tiling to be the heap's.
module HeapModel {
  import opened Words
  import opened RawMemory

  const HEADER := 8   // sizeof(struct HeapHeader): size, is_hole, is_last, padding
  const FOOTER := 4   // sizeof(struct HeapFooter): the header's address
  const OVERHEAD := 12

  // Block i occupies [cuts[i], cuts[i + 1]); holes[i] says whether it is free.

  // A header at lo describing the block [lo, hi).
  ghost predicate BlockAt(m: Memory, lo: int, hi: int, hole: bool, last: bool) {
    && 0 <= lo && lo + OVERHEAD <= hi <= |m|
    && GetWord(m, lo) == hi - lo
    && (m[lo + 4] != 0) == hole
    && (m[lo + 5] != 0) == last
  }

  // What the bytes of a header say.
  lemma HeaderSays(m: Memory, lo: int, hi: int, hole: bool, last: bool)
    requires BlockAt(m, lo, hi, hole, last)
    ensures 0 <= lo && lo + OVERHEAD <= hi <= |m| && GetWord(m, lo) == hi - lo
    ensures (m[lo + 4] != 0) == hole && (m[lo + 5] != 0) == last
  {
  }

  // A footer at the end of [lo, hi) naming its header.
  ghost predicate FooterAt(m: Memory, lo: int, hi: int) {
    0 <= lo && lo + OVERHEAD <= hi <= |m| && GetWord(m, hi - FOOTER) == lo
  }

  // Writing the fields of a header.
  function PutHeader(m: Memory, a: nat, size: u32, hole: bool, last: bool): (m': Memory)
    requires a + HEADER <= |m|
    ensures SameOutside(m, m', a, a + HEADER)
    ensures size >= OVERHEAD && a + size <= |m| ==> BlockAt(m', a, a + size, hole, last)
  {
    var m1 := PutByte(m, a + 4, if hole then 1 else 0);
    var m2 := PutByte(m1, a + 5, if last then 1 else 0);
    PutWord(m2, a, size)
  }

  lemma BlockUnchanged(m: Memory, m': Memory, a: int, b: int, lo: int, hi: int, hole: bool, last: bool)
    requires SameOutside(m, m', a, b) && BlockAt(m, lo, hi, hole, last)
    requires lo + HEADER <= a || b <= lo
    ensures BlockAt(m', lo, hi, hole, last)
  {
    WordUnchanged(m, m', a, b, lo);
  }

  lemma FooterUnchanged(m: Memory, m': Memory, a: int, b: int, lo: int, hi: int)
    requires SameOutside(m, m', a, b) && FooterAt(m, lo, hi)
    requires hi <= a || b <= hi - FOOTER
    ensures FooterAt(m', lo, hi)
  {
    WordUnchanged(m, m', a, b, hi - FOOTER);
  }

  lemma FooterKept(m: Memory, m': Memory, lo: int, hi: int)
    requires FooterAt(m, lo, hi) && |m'| == |m| && GetWord(m', hi - FOOTER) == GetWord(m, hi - FOOTER)
    ensures FooterAt(m', lo, hi)
  {
  }

  // Writing the hole flag of a block that is not the last.
  lemma FlagHole(m: Memory, lo: int, hi: int, was: bool, flag: u8)
    requires BlockAt(m, lo, hi, was, false) && FooterAt(m, lo, hi)
    ensures var m1 := PutByte(m, lo + 4, flag);
            && |m1| == |m| && BlockAt(m1, lo, hi, flag != 0, false) && FooterAt(m1, lo, hi)
            && SameOutside(m, m1, lo + 4, lo + 5) && SameOutside(m, m1, lo, hi)
  {
    var m1 := PutByte(m, lo + 4, flag);
    WordUnchanged(m, m1, lo + 4, lo + 5, lo);
    FooterUnchanged(m, m1, lo + 4, lo + 5, lo, hi);
    hide GetWord;
  }

  // The two writes by which the last block takes in a page.
  function PutPage(m: Memory, lo: u32, size: u32): (m': Memory)
    requires OVERHEAD <= size && lo + size <= |m| && size + PAGE < TWO32
    ensures SameOutside(m, m', lo, lo + size)
  {
    var m1 := PutWord(m, lo + size - FOOTER, lo);
    PutWord(m1, lo, size + PAGE)
  }

  lemma PageTakenIn(m: Memory, lo: u32, size: u32)
    requires BlockAt(m, lo, lo + size, true, true) && lo + size + PAGE <= |m| && size + PAGE < TWO32
    ensures BlockAt(PutPage(m, lo, size), lo, lo + size + PAGE, true, true)
  {
    var m1 := PutWord(m, lo + size - FOOTER, lo);
    BlockUnchanged(m, m1, lo + size - FOOTER, lo + size, lo, lo + size, true, true);
    hide GetWord;
  }

  // The writes by which the hole [t, r) takes in the hole [r, e) on its right: the mark,
  // if it is carried over, then the size and the footer.
  function MarkCarried(m: Memory, t: int, r: int, carry: bool): Memory
    requires 0 <= t && t + OVERHEAD <= r && r + OVERHEAD <= |m|
  {
    if carry then PutByte(m, t + 5, m[r + 5]) else m
  }

  function SizeTaken(m: Memory, t: int, e: int): Memory
    requires 0 <= t && t + OVERHEAD <= e <= |m| && e < TWO32
  {
    PutWord(PutWord(m, t, e - t), e - FOOTER, t)
  }

  lemma CarryingMark(m: Memory, t: int, r: int, e: int, carry: bool, last: bool)
    requires BlockAt(m, t, r, true, false) && BlockAt(m, r, e, true, last)
    ensures var m' := MarkCarried(m, t, r, carry);
            && BlockAt(m', t, r, true, carry && last) && BlockAt(m', r, e, true, last)
            && SameOutside(m, m', t, e) && GetWord(m', r - FOOTER) == GetWord(m, r - FOOTER)
  {
    if carry {
      var m' := MarkCarried(m, t, r, carry);
      BlockUnchanged(m, m', t + 5, t + 6, r, e, true, last);
      WordUnchanged(m, m', t + 5, t + 6, r - FOOTER);
      WordUnchanged(m, m', t + 5, t + 6, t);
    }
    hide GetWord;
  }

  lemma TakingIn(m: Memory, t: int, r: int, e: int, mark: bool, last: bool)
    requires BlockAt(m, t, r, true, mark) && BlockAt(m, r, e, true, last) && |m| < TWO32
    ensures var m' := SizeTaken(m, t, e);
            && BlockAt(m', t, e, true, mark) && FooterAt(m', t, e) && BlockAt(m', r, e, true, last)
            && SameOutside(m, m', t, e) && GetWord(m', r - FOOTER) == GetWord(m, r - FOOTER)
  {
    var m1 := PutWord(m, t, e - t);
    var m' := PutWord(m1, e - FOOTER, t);
    BlockUnchanged(m, m1, t, t + 4, r, e, true, last);
    WordUnchanged(m, m1, t, t + 4, r - FOOTER);
    BlockUnchanged(m1, m', e - FOOTER, e, r, e, true, last);
    WordUnchanged(m1, m', e - FOOTER, e, r - FOOTER);
    WordUnchanged(m1, m', e - FOOTER, e, t);
    hide GetWord, PutWord;
  }

  ghost predicate Ordered(cuts: seq<int>) {
    forall i, j :: 0 <= i < j < |cuts| ==> cuts[i] + OVERHEAD <= cuts[j]
  }

  ghost predicate Blocks(m: Memory, cuts: seq<int>, holes: seq<bool>)
    requires |cuts| == |holes| + 1
  {
    && (forall i :: 0 <= i < |holes| ==> BlockAt(m, cuts[i], cuts[i + 1], holes[i], i == |holes| - 1))
    && (forall i :: 0 <= i < |holes| - 1 ==> FooterAt(m, cuts[i], cuts[i + 1]))
  }

  // No two neighbouring holes, and a hole at the end.
  ghost predicate Coalesced(holes: seq<bool>) {
    && holes != [] && holes[|holes| - 1]
    && forall i :: 0 <= i < |holes| - 1 ==> !(holes[i] && holes[i + 1])
  }

  // The blocks tile [start, end) exactly.
  ghost predicate Laid(m: Memory, start: int, end: int, cuts: seq<int>, holes: seq<bool>) {
    && |cuts| == |holes| + 1 && holes != []
    && cuts[0] == start && cuts[|cuts| - 1] == end
    && Ordered(cuts)
    && Blocks(m, cuts, holes)
  }

  // The heap invariant: they do, and holes next to each other have been joined.
  ghost predicate Tiled(m: Memory, start: int, end: int, cuts: seq<int>, holes: seq<bool>) {
    Laid(m, start, end, cuts, holes) && Coalesced(holes)
  }

  // Blocks a..b replaced by blocks with the given inner cuts.
  function SpliceCuts(cuts: seq<int>, a: nat, b: nat, mid: seq<int>): seq<int>
    requires a <= b < |cuts| - 1
  {
    cuts[..a + 1] + mid + cuts[b + 1..]
  }

  function SpliceHoles(holes: seq<bool>, a: nat, b: nat, mid: seq<bool>): seq<bool>
    requires a <= b < |holes|
  {
    holes[..a] + mid + holes[b + 1..]
  }

  // What a rewrite of blocks a..b must have put in memory.
  ghost predicate Rewritten(m: Memory, cuts: seq<int>, holes: seq<bool>, a: nat, b: nat, mid: seq<int>, mh: seq<bool>)
    requires |cuts| == |holes| + 1 && a <= b < |holes| && |mh| == |mid| + 1
  {
    var inner := [cuts[a]] + mid + [cuts[b + 1]];
    var atEnd := b == |holes| - 1;
    && (forall k :: 0 <= k < |mh| ==> BlockAt(m, inner[k], inner[k + 1], mh[k], atEnd && k == |mh| - 1))
    && (forall k :: 0 <= k < |mh| && !(atEnd && k == |mh| - 1) ==> FooterAt(m, inner[k], inner[k + 1]))
  }

  lemma SpliceOrdered(cuts: seq<int>, a: nat, b: nat, mid: seq<int>)
    requires a <= b < |cuts| - 1 && Ordered(cuts) && Ordered([cuts[a]] + mid + [cuts[b + 1]])
    ensures Ordered(SpliceCuts(cuts, a, b, mid))
  {
    var inner := [cuts[a]] + mid + [cuts[b + 1]];
    var r := SpliceCuts(cuts, a, b, mid);
    forall i, j | 0 <= i < j < |r|
      ensures r[i] + OVERHEAD <= r[j]
    {
      var d := b - a - |mid|;
      assert r[i] == if i <= a then cuts[i] else if i <= a + |mid| then inner[i - a] else cuts[i + d];
      assert r[j] == if j <= a then cuts[j] else if j <= a + |mid| then inner[j - a] else cuts[j + d];
      if i <= a && a < j <= a + |mid| {
        assert inner[0] + OVERHEAD <= inner[j - a];
      } else if a < i <= a + |mid| && j > a + |mid| {
        assert inner[i - a] + OVERHEAD <= inner[|mid| + 1];
      }
    }
  }

  lemma SpliceBlocks(m: Memory, m': Memory, cuts: seq<int>, holes: seq<bool>, a: nat, b: nat, mid: seq<int>, mh: seq<bool>)
    requires |cuts| == |holes| + 1 && Ordered(cuts) && Blocks(m, cuts, holes)
    requires a <= b < |holes| && |mh| == |mid| + 1
    requires SameOutside(m, m', cuts[a], cuts[b + 1])
    requires Rewritten(m', cuts, holes, a, b, mid, mh)
    ensures Blocks(m', SpliceCuts(cuts, a, b, mid), SpliceHoles(holes, a, b, mh))
  {
    var inner := [cuts[a]] + mid + [cuts[b + 1]];
    var r := SpliceCuts(cuts, a, b, mid);
    var h := SpliceHoles(holes, a, b, mh);
    var d := b - a - |mid|;
    forall i | 0 <= i < |h|
      ensures BlockAt(m', r[i], r[i + 1], h[i], i == |h| - 1)
      ensures i < |h| - 1 ==> FooterAt(m', r[i], r[i + 1])
    {
      if i < a {
        BlockKept(m, m', cuts, holes, cuts[a], cuts[b + 1], i);
      } else if i <= a + |mid| {
        assert r[i] == inner[i - a] && r[i + 1] == inner[i + 1 - a] && h[i] == mh[i - a];
      } else {
        assert r[i] == cuts[i + d] && r[i + 1] == cuts[i + d + 1] && h[i] == holes[i + d];
        BlockKept(m, m', cuts, holes, cuts[a], cuts[b + 1], i + d);
      }
    }
  }

  lemma BlockKept(m: Memory, m': Memory, cuts: seq<int>, holes: seq<bool>, lo: int, hi: int, i: nat)
    requires |cuts| == |holes| + 1 && Ordered(cuts) && Blocks(m, cuts, holes) && i < |holes|
    requires SameOutside(m, m', lo, hi) && (cuts[i + 1] <= lo || hi <= cuts[i])
    ensures BlockAt(m', cuts[i], cuts[i + 1], holes[i], i == |holes| - 1)
    ensures i < |holes| - 1 ==> FooterAt(m', cuts[i], cuts[i + 1])
  {
    assert BlockAt(m, cuts[i], cuts[i + 1], holes[i], i == |holes| - 1);
    WordUnchanged(m, m', lo, hi, cuts[i]);
    if i < |holes| - 1 {
      assert FooterAt(m, cuts[i], cuts[i + 1]);
      WordUnchanged(m, m', lo, hi, cuts[i + 1] - FOOTER);
    }
  }

  lemma SplicedHole(holes: seq<bool>, a: nat, b: nat, mh: seq<bool>, i: nat)
    requires a <= b < |holes| && i < a + |mh| + |holes| - b - 1
    ensures var h := SpliceHoles(holes, a, b, mh);
            && |h| == a + |mh| + |holes| - b - 1
            && h[i] == if i < a then holes[i] else if i < a + |mh| then mh[i - a] else holes[i + b + 1 - a - |mh|]
  {
  }

  lemma SpliceCoalesced(holes: seq<bool>, a: nat, b: nat, mh: seq<bool>)
    requires Coalesced(holes) && a <= b < |holes| && mh != []
    requires forall k :: 0 <= k < |mh| - 1 ==> !(mh[k] && mh[k + 1])
    requires a > 0 && mh[0] ==> !holes[a - 1]
    requires b < |holes| - 1 && mh[|mh| - 1] ==> !holes[b + 1]
    requires b == |holes| - 1 ==> mh[|mh| - 1]
    ensures Coalesced(SpliceHoles(holes, a, b, mh))
  {
    hide SpliceHoles;
    var h := SpliceHoles(holes, a, b, mh);
    var d := b + 1 - a - |mh|;
    SplicedHole(holes, a, b, mh, a + |mh| + |holes| - b - 2);
    forall i | 0 <= i < |h| - 1
      ensures !(h[i] && h[i + 1])
    {
      SplicedHole(holes, a, b, mh, i);
      SplicedHole(holes, a, b, mh, i + 1);
      if i + 1 < a {
        assert !(holes[i] && holes[i + 1]);
      } else if a <= i && i + 1 < a + |mh| {
        assert !(mh[i - a] && mh[i - a + 1]);
      } else if i >= a + |mh| {
        assert !(holes[i + d] && holes[i + d + 1]);
      }
    }
  }

  // Rewriting some neighbouring blocks in place, without touching a byte outside
  // them, takes one tiling to another.
  lemma Splice(m: Memory, m': Memory, start: int, end: int, cuts: seq<int>, holes: seq<bool>,
               a: nat, b: nat, mid: seq<int>, mh: seq<bool>)
    requires Tiled(m, start, end, cuts, holes)
    requires a <= b < |holes| && |mh| == |mid| + 1
    requires SameOutside(m, m', cuts[a], cuts[b + 1])
    requires Ordered([cuts[a]] + mid + [cuts[b + 1]])
    requires Rewritten(m', cuts, holes, a, b, mid, mh)
    requires forall k :: 0 <= k < |mh| - 1 ==> !(mh[k] && mh[k + 1])
    requires a > 0 && mh[0] ==> !holes[a - 1]
    requires b < |holes| - 1 && mh[|mh| - 1] ==> !holes[b + 1]
    requires b == |holes| - 1 ==> mh[|mh| - 1]
    ensures Tiled(m', start, end, SpliceCuts(cuts, a, b, mid), SpliceHoles(holes, a, b, mh))
  {
    SpliceOrdered(cuts, a, b, mid);
    SpliceBlocks(m, m', cuts, holes, a, b, mid, mh);
    SpliceCoalesced(holes, a, b, mh);
  }

  // ---------- accounting ----------

  // Payload bytes of the live blocks among the first k.
  ghost function Used(cuts: seq<int>, holes: seq<bool>, k: nat): int
    requires k <= |holes| < |cuts|
  {
    if k == 0 then 0
    else Used(cuts, holes, k - 1) + (if holes[k - 1] then 0 else cuts[k] - cuts[k - 1] - OVERHEAD)
  }

  ghost function LiveBlocks(holes: seq<bool>, k: nat): nat
    requires k <= |holes|
  {
    if k == 0 then 0 else LiveBlocks(holes, k - 1) + (if holes[k - 1] then 0 else 1)
  }

  ghost function HoleBytes(cuts: seq<int>, holes: seq<bool>, k: nat): int
    requires k <= |holes| < |cuts|
  {
    if k == 0 then 0
    else HoleBytes(cuts, holes, k - 1) + (if holes[k - 1] then cuts[k] - cuts[k - 1] else 0)
  }

  // Every byte of the heap is payload, bookkeeping of a live block, or in a hole.
  lemma {:induction false} HeapBytes(cuts: seq<int>, holes: seq<bool>, k: nat)
    requires k <= |holes| && |cuts| == |holes| + 1
    ensures cuts[k] - cuts[0] == Used(cuts, holes, k) + OVERHEAD * LiveBlocks(holes, k) + HoleBytes(cuts, holes, k)
  {
    if k > 0 {
      HeapBytes(cuts, holes, k - 1);
    }
  }

  lemma {:induction false} UsedPrefix(cuts: seq<int>, holes: seq<bool>, cuts': seq<int>, holes': seq<bool>, k: nat)
    requires k <= |holes| < |cuts| && k <= |holes'| < |cuts'|
    requires cuts'[..k + 1] == cuts[..k + 1] && holes'[..k] == holes[..k]
    ensures Used(cuts', holes', k) == Used(cuts, holes, k)
  {
    if k > 0 {
      assert cuts'[..k] == cuts'[..k + 1][..k] == cuts[..k + 1][..k] == cuts[..k];
      assert holes'[..k - 1] == holes'[..k][..k - 1] == holes[..k][..k - 1] == holes[..k - 1];
      UsedPrefix(cuts, holes, cuts', holes', k - 1);
      assert cuts'[..k + 1][k] == cuts[..k + 1][k] && cuts'[..k + 1][k - 1] == cuts[..k + 1][k - 1];
      assert holes'[..k][k - 1] == holes[..k][k - 1];
    }
  }

  // The blocks behind position i look the same behind position j.
  lemma {:induction false} UsedSuffix(cuts: seq<int>, holes: seq<bool>, i: nat, n: nat,
                                      cuts': seq<int>, holes': seq<bool>, d: int)
    requires i <= n <= |holes| && |cuts| == |holes| + 1
    requires 0 <= i + d && n + d <= |holes'| && |cuts'| == |holes'| + 1
    requires forall k :: i <= k <= n ==> cuts[k] == cuts'[k + d]
    requires forall k :: i <= k < n ==> holes[k] == holes'[k + d]
    ensures Used(cuts, holes, n) - Used(cuts, holes, i) == Used(cuts', holes', n + d) - Used(cuts', holes', i + d)
  {
    if i < n {
      UsedSuffix(cuts, holes, i, n - 1, cuts', holes', d);
    }
  }

  // Rewriting blocks a..b changes the bytes in use by what changes within them.
  lemma UsedSplice(cuts: seq<int>, holes: seq<bool>, a: nat, b: nat, mid: seq<int>, mh: seq<bool>)
    requires |cuts| == |holes| + 1 && a <= b < |holes| && |mh| == |mid| + 1
    ensures var c := SpliceCuts(cuts, a, b, mid);
            var h := SpliceHoles(holes, a, b, mh);
            && |c| == |h| + 1 && |h| == a + |mh| + (|holes| - b - 1)
            && Used(c, h, |h|) - Used(cuts, holes, |holes|) ==
               (Used(c, h, a + |mh|) - Used(c, h, a)) - (Used(cuts, holes, b + 1) - Used(cuts, holes, a))
  {
    var c := SpliceCuts(cuts, a, b, mid);
    var h := SpliceHoles(holes, a, b, mh);
    UsedSuffix(cuts, holes, b + 1, |holes|, c, h, a + |mh| - (b + 1));
    assert c[..a + 1] == cuts[..a + 1] && h[..a] == holes[..a];
    UsedPrefix(cuts, holes, c, h, a);
  }

  // ---------- live bytes ----------

  // Address x belongs to a live block: header, payload or footer.
  ghost predicate LiveByte(cuts: seq<int>, holes: seq<bool>, x: int)
    requires |cuts| == |holes| + 1
  {
    exists i :: 0 <= i < |holes| && !holes[i] && cuts[i] <= x < cuts[i + 1]
  }

  // No byte of a block in use differs.
  ghost predicate LiveSame(m: Memory, m': Memory, cuts: seq<int>, holes: seq<bool>)
    requires |cuts| == |holes| + 1
  {
    |m'| == |m| && forall x :: 0 <= x < |m| && LiveByte(cuts, holes, x) ==> m'[x] == m[x]
  }

  lemma Untouched(m: Memory, cuts: seq<int>, holes: seq<bool>, lo: int, hi: int)
    requires |cuts| == |holes| + 1
    ensures LiveSame(m, m, cuts, holes) && SameOutside(m, m, lo, hi)
  {
  }

  lemma HoleRewritten(m: Memory, m': Memory, cuts: seq<int>, holes: seq<bool>, i: nat)
    requires |cuts| == |holes| + 1 && Ordered(cuts) && i < |holes| && holes[i]
    requires SameOutside(m, m', cuts[i], cuts[i + 1])
    ensures LiveSame(m, m', cuts, holes)
  {
    forall x | 0 <= x < |m| && LiveByte(cuts, holes, x)
      ensures m'[x] == m[x]
    {
      if cuts[i] <= x < cuts[i + 1] {
        LiveWithin(cuts, holes, i, i, x);
      }
    }
  }

  // No byte of a block in use other than block i differs.
  ghost predicate OthersSame(m: Memory, m': Memory, cuts: seq<int>, holes: seq<bool>, i: nat)
    requires |cuts| == |holes| + 1 && i < |holes|
  {
    |m'| == |m| &&
    forall x :: 0 <= x < |m| && LiveByte(cuts, holes, x) && !(cuts[i] <= x < cuts[i + 1]) ==> m'[x] == m[x]
  }

  // Blocks a..b hold at most block i in use.
  lemma NeighboursRewritten(m: Memory, m': Memory, cuts: seq<int>, holes: seq<bool>, a: nat, i: nat, b: nat)
    requires |cuts| == |holes| + 1 && Ordered(cuts) && a <= i <= b < |holes|
    requires forall k :: a <= k <= b && k != i ==> holes[k]
    requires SameOutside(m, m', cuts[a], cuts[b + 1])
    ensures OthersSame(m, m', cuts, holes, i)
  {
    forall x | 0 <= x < |m| && LiveByte(cuts, holes, x) && !(cuts[i] <= x < cuts[i + 1])
      ensures m'[x] == m[x]
    {
      if cuts[a] <= x < cuts[b + 1] {
        LiveWithin(cuts, holes, a, b, x);
      }
    }
  }

  lemma LiveSameGrown(m: Memory, m1: Memory, m2: Memory, cuts: seq<int>, holes: seq<bool>)
    requires |cuts| == |holes| + 1 && holes != [] && holes[|holes| - 1]
    requires LiveSame(m, m1, cuts, holes) && LiveSame(m1, m2, Grown(cuts, 1), holes)
    ensures LiveSame(m, m2, cuts, holes)
  {
    forall x | 0 <= x < |m| && LiveByte(cuts, holes, x)
      ensures m2[x] == m[x]
    {
      var i :| 0 <= i < |holes| && !holes[i] && cuts[i] <= x < cuts[i + 1];
      var c := Grown(cuts, 1);
      assert c[i] == cuts[i] && c[i + 1] == cuts[i + 1];
      assert LiveByte(c, holes, x);
    }
  }

  // Among blocks a..b, only those in use hold live bytes.
  lemma LiveWithin(cuts: seq<int>, holes: seq<bool>, a: nat, b: nat, x: int)
    requires |cuts| == |holes| + 1 && Ordered(cuts) && a <= b < |holes|
    requires LiveByte(cuts, holes, x) && cuts[a] <= x < cuts[b + 1]
    ensures exists i :: a <= i <= b && !holes[i] && cuts[i] <= x < cuts[i + 1]
  {
    var i :| 0 <= i < |holes| && !holes[i] && cuts[i] <= x < cuts[i + 1];
    WhichBlock(cuts, a, b, i, x);
  }

  lemma WhichBlock(cuts: seq<int>, a: nat, b: nat, i: nat, x: int)
    requires Ordered(cuts) && a <= b < |cuts| - 1 && i < |cuts| - 1
    requires cuts[a] <= x < cuts[b + 1] && cuts[i] <= x < cuts[i + 1]
    ensures a <= i <= b
  {
    hide Ordered;
    if i < a {
      CutsMonotone(cuts, i + 1, a);
    } else if i > b {
      CutsMonotone(cuts, b + 1, i);
    }
  }

  lemma CutsMonotone(cuts: seq<int>, i: nat, j: nat)
    requires Ordered(cuts) && i <= j < |cuts|
    ensures cuts[i] <= cuts[j]
  {
  }

  // ---------- uniqueness ----------

  // Walking the headers from the start meets the same blocks in every tiling.
  lemma {:induction false} WalkAgrees(m: Memory, start: int, end: int, cuts: seq<int>, holes: seq<bool>, k: nat,
                                      c: seq<int>, h: seq<bool>)
    requires Laid(m, start, end, c, h)
    requires k < |cuts| && k <= |holes| && cuts[0] == start
    requires forall j :: 0 <= j < k ==> BlockAt(m, cuts[j], cuts[j + 1], holes[j], false)
    ensures k < |h| && c[k] == cuts[k]
  {
    if k > 0 {
      WalkAgrees(m, start, end, cuts, holes, k - 1, c, h);
      assert BlockAt(m, cuts[k - 1], cuts[k], holes[k - 1], false);
      assert BlockAt(m, c[k - 1], c[k], h[k - 1], k - 1 == |h| - 1);
    }
  }

  lemma HeaderDecides(m: Memory, start: int, end: int, c: seq<int>, h: seq<bool>, k: nat)
    requires Laid(m, start, end, c, h) && k < |h|
    ensures BlockAt(m, c[k], c[k + 1], h[k], k == |h| - 1)
    ensures k < |h| - 1 ==> FooterAt(m, c[k], c[k + 1])
  {
  }

  // Two holes in a row, met on that walk, rule out every tiling with joined holes.
  lemma AdjacentHolesUntiled(m: Memory, start: int, end: int, cuts: seq<int>, holes: seq<bool>, k: nat,
                             x: int, y: int, last: bool, c: seq<int>, h: seq<bool>)
    requires k < |cuts| && k <= |holes| && cuts[0] == start
    requires forall j :: 0 <= j < k ==> BlockAt(m, cuts[j], cuts[j + 1], holes[j], false)
    requires BlockAt(m, cuts[k], x, true, false) && BlockAt(m, x, y, true, last)
    ensures !Tiled(m, start, end, c, h)
  {
    if Tiled(m, start, end, c, h) {
      WalkAgrees(m, start, end, cuts, holes, k, c, h);
      HeaderDecides(m, start, end, c, h, k);
      HeaderDecides(m, start, end, c, h, k + 1);
    }
  }

  // A block that reaches the end without being marked the last rules out every tiling.
  lemma UnmarkedLastUntiled(m: Memory, start: int, end: int, cuts: seq<int>, holes: seq<bool>, k: nat,
                            hole: bool, c: seq<int>, h: seq<bool>)
    requires k < |cuts| && k <= |holes| && cuts[0] == start
    requires forall j :: 0 <= j < k ==> BlockAt(m, cuts[j], cuts[j + 1], holes[j], false)
    requires BlockAt(m, cuts[k], end, hole, false)
    ensures !Laid(m, start, end, c, h)
  {
    if Laid(m, start, end, c, h) {
      WalkAgrees(m, start, end, cuts, holes, k, c, h);
      HeaderDecides(m, start, end, c, h, k);
    }
  }

  // So does a footer, in front of the end, that names no header.
  lemma StaleFooterUntiled(m: Memory, start: int, end: int, cuts: seq<int>, holes: seq<bool>, k: nat,
                           x: int, y: int, hole: bool, c: seq<int>, h: seq<bool>)
    requires k < |cuts| && k <= |holes| && cuts[0] == start
    requires forall j :: 0 <= j < k ==> BlockAt(m, cuts[j], cuts[j + 1], holes[j], false)
    requires BlockAt(m, cuts[k], x, true, false) && BlockAt(m, x, y, hole, false) && !FooterAt(m, x, y)
    ensures !Laid(m, start, end, c, h)
  {
    if Laid(m, start, end, c, h) {
      WalkAgrees(m, start, end, cuts, holes, k, c, h);
      HeaderDecides(m, start, end, c, h, k);
      HeaderDecides(m, start, end, c, h, k + 1);
    }
  }

  // The last block with g more pages.
  ghost function Grown(cuts: seq<int>, g: nat): (r: seq<int>)
    requires cuts != []
    ensures |r| == |cuts|
  {
    cuts[|cuts| - 1 := cuts[|cuts| - 1] + 4096 * g]
  }

  lemma GrownTwice(cuts: seq<int>, g: nat)
    requires cuts != []
    ensures Grown(Grown(cuts, 1), g) == Grown(cuts, g + 1)
  {
  }
}
