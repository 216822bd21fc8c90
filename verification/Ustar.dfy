// The ustar archive walker of src/tar.c (ustar interchange format, POSIX pax).
module Ustar {
  import opened Words

  import Decimal

  const HEADER := 512
  const SIZE_FIELD := 124
  const SIZE_END := 136

  // --- read_octal ---

  // The number spelled by octal digit bytes, most significant first. Other bytes
  // count for what they differ from '0' by, as in the C code.
  function Octal(s: seq<u8>): int {
    if s == [] then 0 else Octal(s[..|s| - 1]) * 8 + (s[|s| - 1] as int - 48)
  }

  function OctalDigits(n: nat, k: nat): (s: seq<u8>)
    ensures |s| == k && forall i :: 0 <= i < k ==> 48 <= s[i] < 56
  {
    if k == 0 then [] else
      var d: u8 := 48 + n % 8;
      OctalDigits(n / 8, k - 1) + [d]
  }

  function Pow8(k: nat): nat {
    if k == 0 then 1 else 8 * Pow8(k - 1)
  }

  method ReadOctal(data: seq<u8>) returns (ret: u32)
    requires data != []
    ensures ret == Wrap(Octal(data[..|data| - 1]))
  {
    ret := 0;
    for i := 0 to |data| - 1
      invariant ret == Wrap(Octal(data[..i]))
    {
      assert data[..i + 1][..i] == data[..i];
      PushDigit(Octal(data[..i]), 8, data[i] as int - 48);
      ret := Wrap(ret * 8 % TWO32 + (data[i] as int - 48));
    }
  }

  lemma {:induction false} OctalInvertsDigits(n: nat, k: nat)
    requires n < Pow8(k)
    ensures Octal(OctalDigits(n, k)) == n
  {
    if k > 0 {
      OctalInvertsDigits(n / 8, k - 1);
      assert OctalDigits(n, k)[..k - 1] == OctalDigits(n / 8, k - 1);
    }
  }

  // Eleven octal digits hold any 32-bit size.
  lemma SizeFieldInverts(n: u32, last: u8)
    ensures var field := OctalDigits(n, 11) + [last];
            Wrap(Octal(field[..|field| - 1])) == n
  {
    var field := OctalDigits(n, 11) + [last];
    assert field[..11] == OctalDigits(n, 11);
    assert Pow8(6) == 0x40000;
    assert Pow8(11) == 0x2_0000_0000;
    OctalInvertsDigits(n, 11);
  }

  // --- round_size ---

  // The mask 0xFFFFFE00 clears the nine low bits.
  function RoundSize(size: u32): u32 {
    if size % 512 == 0 then size else
      var w := Wrap(size + 512);
      w - w % 512
  }

  // The least multiple of 512 that holds size bytes.
  function RoundUp(size: nat): (r: nat)
    ensures r % 512 == 0 && size <= r < size + 512
  {
    (size + 511) / 512 * 512
  }

  // round_size is that multiple exactly up to 2^32 - 512; above, it wraps to 0.
  lemma RoundSizeIsLeast(size: u32)
    ensures RoundSize(size) == RoundUp(size) <==> size <= TWO32 - 512
    ensures size > TWO32 - 512 ==> RoundSize(size) == 0
    ensures size <= TWO32 - 512 ==>
              forall m: nat :: m % 512 == 0 && m >= size ==> RoundSize(size) <= m
  {
    var q, r := size / 512, size % 512;
    if r == 0 {
      LowNine(size + 511, q, 511);
    } else {
      LowNine(size + 511, q + 1, r - 1);
      RoundingUp(size, q, r);
    }
    forall m: nat | m % 512 == 0 && m >= size
      ensures RoundUp(size) <= m
    {
      LeastMultiple(size, RoundUp(size) / 512, m / 512);
    }
  }

  lemma RoundingUp(size: u32, q: nat, r: nat)
    requires size == 512 * q + r && 0 < r < 512
    ensures RoundSize(size) == if size < TWO32 - 512 then 512 * (q + 1) else 0
  {
    LowNine(size, q, r);
    if size < TWO32 - 512 {
      LowNine(size + 512, q + 1, r);
    } else {
      SameRemainder(size + 512, r, 1);
      LowNine(r, 0, r);
    }
  }

  lemma LeastMultiple(size: nat, a: nat, b: nat)
    requires 512 * a < size + 512 && size <= 512 * b
    ensures a <= b
  {
  }

  // --- load_ustar ---

  // What a node records: a file's name, its size and where its data starts.
  datatype Entry = Entry(name: seq<u8>, size: u32, data: nat)

  // The length of the NUL-terminated string at the start of a memory region.
  function NameLength(mem: seq<u8>): (n: Option<nat>)
    ensures n.Some? ==> n.value < |mem| && mem[n.value] == 0 && 0 !in mem[..n.value]
    ensures n.None? ==> 0 !in mem
  {
    if mem == [] then None
    else if mem[0] == 0 then Some(0)
    else match NameLength(mem[1..])
      case None => None
      case Some(n) => Some(n + 1)
  }

  function NextHeader(mem: seq<u8>): (n: nat)
    requires |mem| >= SIZE_END
    ensures n >= HEADER
  {
    HEADER + RoundSize(SizeOf(mem))
  }

  function SizeOf(mem: seq<u8>): u32
    requires |mem| >= SIZE_END
  {
    Wrap(Octal(mem[SIZE_FIELD..SIZE_END - 1]))
  }

  // The files listed by the headers in `mem`, which starts at address `at`; None when
  // the walk leaves the archive before it meets a blank header.
  function Walk(mem: seq<u8>, at: nat): (files: Option<seq<Entry>>)
    decreases |mem|
  {
    if mem == [] then None
    else if mem[0] == 0 then Some([])
    else if NameLength(mem).None? || |mem| < SIZE_END then None
    else if NextHeader(mem) > |mem| then None
    else
      Prepend([FirstEntry(mem, at)], Walk(mem[NextHeader(mem)..], at + NextHeader(mem)))
  }

  function FirstEntry(mem: seq<u8>, at: nat): Entry
    requires NameLength(mem).Some? && |mem| >= SIZE_END
  {
    Entry(mem[..NameLength(mem).value], SizeOf(mem), at + HEADER)
  }

  function Prepend(done: seq<Entry>, rest: Option<seq<Entry>>): Option<seq<Entry>> {
    match rest
    case None => None
    case Some(files) => Some(done + files)
  }

  lemma WalkStep(mem: seq<u8>, at: nat)
    requires mem != [] && mem[0] != 0
    ensures if NameLength(mem).None? || |mem| < SIZE_END || NextHeader(mem) > |mem| then Walk(mem, at).None?
            else Walk(mem, at) ==
                 Prepend([FirstEntry(mem, at)], Walk(mem[NextHeader(mem)..], at + NextHeader(mem)))
  {
  }

  lemma PrependTwice(a: seq<Entry>, b: seq<Entry>, rest: Option<seq<Entry>>)
    ensures Prepend(a, Prepend(b, rest)) == Prepend(a + b, rest)
    ensures Prepend([], rest) == rest
  {
    if rest.Some? {
      assert a + (b + rest.value) == (a + b) + rest.value;
      assert [] + rest.value == rest.value;
    }
  }

  // --- The format ---

  // A file as it is archived; `meta` and `more` are the header fields the walker ignores.
  datatype Member = Member(name: seq<u8>, contents: seq<u8>, meta: seq<u8>, last: u8, more: seq<u8>)

  predicate Archivable(m: Member) {
    && 1 <= |m.name| <= 99 && 0 !in m.name
    && |m.contents| < TWO32
    && |m.meta| == 24 && |m.more| == HEADER - SIZE_END
  }

  function Zeros(n: nat): seq<u8> {
    seq(n, _ => 0)
  }

  function Header(m: Member): (h: seq<u8>)
    requires Archivable(m)
    ensures |h| == HEADER
  {
    m.name + Zeros(100 - |m.name|) + m.meta + OctalDigits(|m.contents|, 11) + [m.last] + m.more
  }

  // Header and contents, filled up to a multiple of 512 bytes.
  function FileBytes(m: Member): (b: seq<u8>)
    requires Archivable(m)
    ensures |b| == HEADER + RoundUp(|m.contents|)
  {
    Header(m) + (m.contents + Zeros(RoundUp(|m.contents|) - |m.contents|))
  }

  lemma {:induction false} OctalAt(n: nat, k: nat, i: nat)
    requires i < k
    ensures Pow8(k - 1 - i) > 0 && OctalDigits(n, k)[i] == 48 + n / Pow8(k - 1 - i) % 8
  {
    if i < k - 1 {
      OctalAt(n / 8, k - 1, i);
      Decimal.Divides(n, 8, Pow8(k - 2 - i));
    }
  }

  // An archived file in numbers: the name at byte 0, filled up with zeros to 100, eleven
  // octal digits of the size at byte 124, the contents at byte 512.
  lemma {:induction false} FileLayout(m: Member, i: nat)
    requires Archivable(m)
    ensures |FileBytes(m)| >= 512 + |m.contents| && |FileBytes(m)| % 512 == 0
    ensures i < 100 ==> FileBytes(m)[i] == if i < |m.name| then m.name[i] else 0
    ensures 124 <= i < 135 ==> FileBytes(m)[i] == OctalDigits(|m.contents|, 11)[i - 124]
    ensures 512 <= i < 512 + |m.contents| ==> FileBytes(m)[i] == m.contents[i - 512]
  {
    hide OctalDigits, RoundUp;
    assert |FileBytes(m)| == 512 + RoundUp(|m.contents|);
  }

  predicate AllArchivable(files: seq<Member>) {
    files == [] || (Archivable(files[0]) && AllArchivable(files[1..]))
  }

  // Two blank blocks end the archive.
  function Encode(files: seq<Member>): (archive: seq<u8>)
    requires AllArchivable(files)
  {
    if files == [] then Zeros(2 * HEADER) else FileBytes(files[0]) + Encode(files[1..])
  }

  function Listing(files: seq<Member>, at: nat): (entries: seq<Entry>)
    requires AllArchivable(files)
    ensures |entries| == |files|
  {
    if files == [] then [] else
      var m := files[0];
      var size: u32 := |m.contents|;
      [Entry(m.name, size, at + HEADER)] + Listing(files[1..], at + HEADER + RoundUp(size))
  }

  // No size makes round_size wrap, unless it is that of the last file and its
  // contents begin with a zero byte, which is then taken for the end block.
  predicate Loadable(files: seq<Member>) {
    files == [] ||
    if |files[0].contents| <= TWO32 - 512 then Loadable(files[1..])
    else |files| == 1 && files[0].contents[0] == 0
  }

  lemma {:induction false} NameIsFound(name: seq<u8>, rest: seq<u8>)
    requires 0 !in name && rest != [] && rest[0] == 0
    ensures NameLength(name + rest) == Some(|name|)
  {
    if name == [] {
      assert name + rest == rest;
    } else {
      assert (name + rest)[1..] == name[1..] + rest;
      NameIsFound(name[1..], rest);
    }
  }

  // What the walker makes of one header.
  lemma HeaderIsRead(m: Member, rest: seq<u8>)
    requires Archivable(m)
    ensures var mem := Header(m) + rest;
            && mem[0] != 0
            && NameLength(mem) == Some(|m.name|) && mem[..|m.name|] == m.name
            && SizeOf(mem) == |m.contents|
  {
    var mem := Header(m) + rest;
    var behind := Zeros(100 - |m.name|) + m.meta + OctalDigits(|m.contents|, 11) + [m.last] + m.more + rest;
    assert mem == m.name + behind;
    NameIsFound(m.name, behind);
    assert mem[SIZE_FIELD..SIZE_END - 1] == OctalDigits(|m.contents|, 11);
    SizeFieldInverts(|m.contents|, m.last);
    var field := OctalDigits(|m.contents|, 11) + [m.last];
    assert field[..11] == OctalDigits(|m.contents|, 11);
  }

  lemma FileIsRead(m: Member, rest: seq<u8>, at: nat)
    requires Archivable(m)
    ensures var mem := FileBytes(m) + rest;
            && mem[0] != 0 && NameLength(mem).Some?
            && FirstEntry(mem, at) == Entry(m.name, |m.contents|, at + HEADER) && SizeOf(mem) == |m.contents|
            && NextHeader(mem) == HEADER + RoundSize(|m.contents|)
  {
    hide Header, NameLength, SizeOf, RoundSize, RoundUp;
    var behind := m.contents + Zeros(RoundUp(|m.contents|) - |m.contents|) + rest;
    assert FileBytes(m) + rest == Header(m) + behind;
    HeaderIsRead(m, behind);
  }

  // After a file of ordinary size the walk goes on at the next header.
  lemma OrdinaryFile(m: Member, rest: seq<u8>, at: nat)
    requires Archivable(m) && |m.contents| <= TWO32 - 512
    ensures Walk(FileBytes(m) + rest, at) ==
            Prepend([Entry(m.name, |m.contents|, at + HEADER)], Walk(rest, at + |FileBytes(m)|))
  {
    hide Walk, FileBytes, NameLength, Archivable, FirstEntry, RoundUp;
    var mem := FileBytes(m) + rest;
    FileIsRead(m, rest, at);
    RoundSizeIsLeast(|m.contents|);
    assert mem[NextHeader(mem)..] == rest;
    WalkStep(mem, at);
  }

  // After a header whose size field makes round_size wrap, true or not, the walk goes
  // on right behind the header.
  lemma WrappingHeader(mem: seq<u8>, at: nat)
    requires |mem| >= HEADER && mem[0] != 0 && NameLength(mem).Some? && SizeOf(mem) > TWO32 - 512
    ensures Walk(mem, at) == Prepend([FirstEntry(mem, at)], Walk(mem[HEADER..], at + HEADER))
  {
    hide Walk, NameLength, SizeOf;
    RoundSizeIsLeast(SizeOf(mem));
    WalkStep(mem, at);
  }

  // So after a file of such a size it goes on in the file's contents.
  lemma OversizedFile(m: Member, rest: seq<u8>, at: nat)
    requires Archivable(m) && |m.contents| > TWO32 - 512
    ensures Walk(FileBytes(m) + rest, at) ==
            Prepend([Entry(m.name, |m.contents|, at + HEADER)], Walk((FileBytes(m) + rest)[HEADER..], at + HEADER))
    ensures (FileBytes(m) + rest)[HEADER] == m.contents[0]
  {
    hide Walk, NameLength, Archivable, FirstEntry, SizeOf, RoundUp, Header;
    FileIsRead(m, rest, at);
    WrappingHeader(FileBytes(m) + rest, at);
  }

  // What a walk begins with.
  lemma WalkBegins(mem: seq<u8>, at: nat)
    ensures Walk(mem, at) == Some([]) <==> mem != [] && mem[0] == 0
    ensures Walk(mem, at).Some? && Walk(mem, at).value != [] ==> Walk(mem, at).value[0].data == at + HEADER
  {
  }

  lemma PrependSame(e: Entry, r: Option<seq<Entry>>, rest: seq<Entry>)
    ensures Prepend([e], r) == Some([e] + rest) <==> r == Some(rest)
  {
    if r.Some? {
      assert ([e] + r.value)[1..] == r.value && ([e] + rest)[1..] == rest;
    }
  }

  lemma Unfold(files: seq<Member>, at: nat)
    requires AllArchivable(files)
    ensures files == [] ==> Walk(Encode(files), at) == Some([]) && Listing(files, at) == []
    ensures files != [] ==>
              var m, rest := files[0], files[1..];
              && AllArchivable(rest) && Archivable(m)
              && Encode(files) == FileBytes(m) + Encode(rest)
              && Listing(files, at) ==
                 [Entry(m.name, |m.contents|, at + HEADER)] + Listing(rest, at + |FileBytes(m)|)
  {
  }

  // Loading an encoded archive lists its files, in order, with exact names, sizes
  // and data addresses, exactly when the archive is loadable.
  lemma {:induction false} WalkInvertsEncode(files: seq<Member>, at: nat)
    requires AllArchivable(files)
    ensures Walk(Encode(files), at) == Some(Listing(files, at)) <==> Loadable(files)
  {
    hide Walk, Encode, Listing, AllArchivable, FileBytes, Archivable, NameLength, SizeOf, NextHeader, RoundUp, Prepend;
    Unfold(files, at);
    if files != [] {
      var m, rest := files[0], files[1..];
      var e := Entry(m.name, |m.contents|, at + HEADER);
      var others := Listing(rest, at + |FileBytes(m)|);
      if |m.contents| <= TWO32 - 512 {
        OrdinaryFile(m, Encode(rest), at);
        PrependSame(e, Walk(Encode(rest), at + |FileBytes(m)|), others);
        WalkInvertsEncode(rest, at + |FileBytes(m)|);
      } else {
        var tail := Encode(files)[HEADER..];
        OversizedFile(m, Encode(rest), at);
        PrependSame(e, Walk(tail, at + HEADER), others);
        WalkBegins(tail, at + HEADER);
        Unfold(rest, at + |FileBytes(m)|);
      }
    }
  }

  // The data addresses are where the contents lie.
  lemma {:induction false} DataIsThere(files: seq<Member>, at: nat, i: nat)
    requires AllArchivable(files) && i < |files|
    ensures var e := Listing(files, at)[i];
            && e.name == files[i].name && e.size == |files[i].contents|
            && at <= e.data && e.data - at + e.size <= |Encode(files)|
            && Encode(files)[e.data - at..e.data - at + e.size] == files[i].contents
  {
    hide Encode, Listing, AllArchivable, FileBytes, Archivable, RoundUp;
    Unfold(files, at);
    var m, rest := files[0], files[1..];
    var skip := |FileBytes(m)|;
    if i > 0 {
      DataIsThere(rest, at + skip, i - 1);
      var e := Listing(files, at)[i];
      assert e == Listing(rest, at + skip)[i - 1];
      SliceBehind(FileBytes(m), Encode(rest), e.data - at - skip, e.size);
    } else {
      ContentsInFile(m, Encode(rest));
    }
  }

  lemma ContentsInFile(m: Member, rest: seq<u8>)
    requires Archivable(m)
    ensures (FileBytes(m) + rest)[HEADER..HEADER + |m.contents|] == m.contents
  {
    hide Header, RoundUp, Archivable;
  }

  lemma SliceBehind(front: seq<u8>, rest: seq<u8>, i: nat, n: nat)
    requires i + n <= |rest|
    ensures (front + rest)[|front| + i..|front| + i + n] == rest[i..i + n]
  {
  }

  // --- The linked list ---

  class FSNode {
    var name: seq<u8>
    var size: u32
    var data: nat
    var next: FSNode?

    constructor (name: seq<u8>, size: u32, data: nat)
      ensures this.name == name && this.size == size && this.data == data && next == null
    {
      this.name := name;
      this.size := size;
      this.data := data;
      next := null;
    }
  }

  // The list from `first` runs through the nodes in order and ends in `end`.
  ghost predicate Linked(first: FSNode?, nodes: seq<FSNode>, end: FSNode?)
    reads nodes
  {
    && first == NodeAt(nodes, 0, end)
    && (forall i, j :: 0 <= i < j < |nodes| ==> nodes[i] != nodes[j])
    && (forall i :: 0 <= i < |nodes| ==> nodes[i].next == NodeAt(nodes, i + 1, end))
  }

  function NodeAt(nodes: seq<FSNode>, i: nat, end: FSNode?): FSNode? {
    if i < |nodes| then nodes[i] else end
  }

  lemma LinkedFurther(first: FSNode?, nodes: seq<FSNode>, node: FSNode)
    requires Linked(first, nodes, node) && node !in nodes && node.next == null
    ensures Linked(first, nodes + [node], null)
  {
    var all := nodes + [node];
    forall i | 0 <= i < |all|
      ensures all[i].next == NodeAt(all, i + 1, null)
    {
      if i < |nodes| {
        assert all[i] == nodes[i];
      }
    }
  }

  ghost predicate Records(nodes: seq<FSNode>, entries: seq<Entry>)
    reads nodes`name, nodes`size, nodes`data
  {
    && |nodes| == |entries|
    && (forall i :: 0 <= i < |nodes| ==> entries[i] == Entry(nodes[i].name, nodes[i].size, nodes[i].data))
  }

  lemma RecordsFurther(nodes: seq<FSNode>, entries: seq<Entry>, node: FSNode)
    requires Records(nodes, entries)
    ensures Records(nodes + [node], entries + [Entry(node.name, node.size, node.data)])
  {
  }

  // load_ustar. `ok` is false when the walk leaves the archive.
  method LoadUstar(image: seq<u8>) returns (ok: bool, first: FSNode?, ghost nodes: seq<FSNode>)
    ensures ok == Walk(image, 0).Some?
    ensures ok ==> Linked(first, nodes, null) && fresh(nodes) && Records(nodes, Walk(image, 0).value)
  {
    hide Walk, Linked, Records, NameLength, NextHeader, SizeOf;
    var node: FSNode? := null;
    first := null;
    nodes := [];
    ghost var done: seq<Entry> := [];
    var header := 0;
    NothingYet(image);
    while header < |image| && image[header] != 0
      invariant 0 <= header <= |image|
      invariant Linked(first, nodes, null) && fresh(nodes) && Records(nodes, done)
      invariant node == if nodes == [] then null else nodes[|nodes| - 1]
      invariant Walk(image, 0) == Prepend(done, Walk(image[header..], header))
      decreases |image| - header
    {
      var mem := image[header..];
      var length := StrLen(mem);
      WalkOn(image, header, done);
      if length.None? || |mem| < SIZE_END || NextHeader(mem) > |mem| {
        return false, null, [];
      }
      var size := FileSize(mem);
      first, node := Append(first, node, nodes, done, mem[..length.value], size, header + HEADER);
      nodes := nodes + [node];
      done := done + [FirstEntry(mem, header)];
      header := header + NextHeader(mem);
    }
    WalkEnds(image, header, done);
    ok := header < |image|;
  }

  lemma NothingYet(image: seq<u8>)
    ensures Linked(null, [], null) && Records([], [])
    ensures Walk(image, 0) == Prepend([], Walk(image[0..], 0))
  {
    assert image[0..] == image;
    PrependTwice([], [], Walk(image, 0));
  }

  // One turn of the loop, seen from the whole walk.
  lemma WalkOn(image: seq<u8>, header: nat, done: seq<Entry>)
    requires header < |image| && image[header] != 0
    ensures var mem := image[header..];
            var rest := Prepend(done, Walk(mem, header));
            if NameLength(mem).None? || |mem| < SIZE_END || NextHeader(mem) > |mem| then rest.None?
            else rest == Prepend(done + [FirstEntry(mem, header)],
                                 Walk(image[header + NextHeader(mem)..], header + NextHeader(mem)))
  {
    hide Walk, NameLength, NextHeader, SizeOf;
    var mem := image[header..];
    WalkStep(mem, header);
    if NameLength(mem).Some? && |mem| >= SIZE_END && NextHeader(mem) <= |mem| {
      PrependTwice(done, [FirstEntry(mem, header)], Walk(mem[NextHeader(mem)..], header + NextHeader(mem)));
      assert mem[NextHeader(mem)..] == image[header + NextHeader(mem)..];
    }
  }

  lemma WalkEnds(image: seq<u8>, header: nat, done: seq<Entry>)
    requires header <= |image| && (header < |image| ==> image[header] == 0)
    ensures Prepend(done, Walk(image[header..], header)) == if header < |image| then Some(done) else None
  {
    if header < |image| {
      assert image[header..][0] == 0;
      assert done + [] == done;
    }
  }

  method FileSize(mem: seq<u8>) returns (size: u32)
    requires |mem| >= SIZE_END
    ensures size == SizeOf(mem)
  {
    assert mem[SIZE_FIELD..SIZE_END][..11] == mem[SIZE_FIELD..SIZE_END - 1];
    size := ReadOctal(mem[SIZE_FIELD..SIZE_END]);
  }

  // Allocates the next node and hangs it behind the last one.
  method Append(first: FSNode?, last: FSNode?, ghost nodes: seq<FSNode>, ghost entries: seq<Entry>,
                name: seq<u8>, size: u32, data: nat)
    returns (start: FSNode?, node: FSNode)
    requires Linked(first, nodes, null) && Records(nodes, entries)
    requires last == if nodes == [] then null else nodes[|nodes| - 1]
    modifies nodes`next
    ensures fresh(node) && Linked(start, nodes + [node], null)
    ensures Records(nodes + [node], entries + [Entry(name, size, data)])
  {
    hide Records;
    start := first;
    node := new FSNode(name, size, data);
    if last == null {
      start := node;
    } else {
      last.next := node;
    }
    LinkedFurther(start, nodes, node);
    RecordsFurther(nodes, entries, node);
  }

  method StrLen(mem: seq<u8>) returns (n: Option<nat>)
    ensures n == NameLength(mem)
  {
    var i := 0;
    while i < |mem| && mem[i] != 0
      invariant 0 <= i <= |mem|
      invariant NameLength(mem) == match NameLength(mem[i..]) case None => None case Some(k) => Some(i + k)
    {
      assert mem[i..][1..] == mem[i + 1..];
      i := i + 1;
    }
    n := if i < |mem| then Some(i) else None;
  }

  // --- tar_find_file ---

  // strcmp of src/string.c looks at 1000 characters at most; a longer common
  // beginning is a failed assertion.
  const MAX_COMPARED := 1000

  datatype Comparison = Same | Smaller | Greater | TooLong

  function CharAt(s: seq<u8>, i: nat): u8 {
    if i < |s| then s[i] else 0
  }

  // Characters are signed.
  function Signed(c: u8): int {
    if c >= 128 then c - 256 else c
  }

  ghost predicate FirstDifference(a: seq<u8>, b: seq<u8>, i: nat) {
    i <= |a| && i <= |b| && a[..i] == b[..i] && CharAt(a, i) != CharAt(b, i)
  }

  ghost predicate TooAlike(a: seq<u8>, b: seq<u8>) {
    |a| >= 1000 && |b| >= 1000 && a[..1000] == b[..1000]
  }

  lemma AlikeAt(a: seq<u8>, b: seq<u8>, i: nat)
    ensures i < MAX_COMPARED && TooAlike(a, b) ==> CharAt(a, i) == CharAt(b, i)
  {
    if i < MAX_COMPARED && TooAlike(a, b) {
      assert a[..MAX_COMPARED][i] == a[i] && b[..MAX_COMPARED][i] == b[i];
    }
  }

  method StrCmp(a: seq<u8>, b: seq<u8>) returns (r: Comparison)
    requires 0 !in a && 0 !in b
    ensures r == Same <==> a == b && |a| < 1000
    ensures r == TooLong <==> TooAlike(a, b)
    ensures r == TooLong ==> |a| >= 1000 && |b| >= 1000
    ensures a == b ==> r == Same || r == TooLong
    ensures r == Smaller ==> exists i :: FirstDifference(a, b, i) && Signed(CharAt(a, i)) < Signed(CharAt(b, i))
    ensures r == Greater ==> exists i :: FirstDifference(a, b, i) && Signed(CharAt(a, i)) > Signed(CharAt(b, i))
  {
    for i := 0 to MAX_COMPARED
      invariant i <= |a| && i <= |b| && a[..i] == b[..i]
    {
      if CharAt(a, i) == 0 && CharAt(b, i) == 0 {
        assert a == a[..i] && b == b[..i];
        return Same;
      }
      if CharAt(a, i) != CharAt(b, i) {
        assert FirstDifference(a, b, i);
        AlikeAt(a, b, i);
        return if Signed(CharAt(a, i)) < Signed(CharAt(b, i)) then Smaller else Greater;
      }
      assert a[..i + 1] == a[..i] + [a[i]] && b[..i + 1] == b[..i] + [b[i]];
    }
    r := TooLong;
  }

  // The first file of the name, or null when there is none; names that agree on 1000
  // characters stop the kernel.
  method TarFindFile(root: FSNode?, ghost nodes: seq<FSNode>, name: seq<u8>) returns (found: FSNode?, panic: bool)
    requires Linked(root, nodes, null) && 0 !in name
    requires forall i :: 0 <= i < |nodes| ==> 0 !in nodes[i].name
    ensures !panic && found == null ==> forall i :: 0 <= i < |nodes| ==> nodes[i].name != name
    ensures !panic && found != null ==> exists i: nat :: IsFirst(nodes, i, name) && found == nodes[i]
    ensures panic ==> exists i :: 0 <= i < |nodes| && TooAlike(nodes[i].name, name)
    ensures |name| < 1000 ==> !panic
  {
    hide TooAlike;
    var iter := root;
    ghost var k := 0;
    while iter != null
      invariant 0 <= k <= |nodes| && iter == NodeAt(nodes, k, null)
      invariant forall i :: 0 <= i < k ==> nodes[i].name != name
      decreases |nodes| - k
    {
      var order := StrCmp(iter.name, name);
      if order == TooLong {
        return null, true;
      }
      if order == Same {
        assert IsFirst(nodes, k, name);
        return iter, false;
      }
      iter := iter.next;
      k := k + 1;
    }
    return null, false;
  }

  ghost predicate IsFirst(nodes: seq<FSNode>, i: nat, name: seq<u8>)
    reads nodes
  {
    i < |nodes| && nodes[i].name == name && forall j :: 0 <= j < i ==> nodes[j].name != name
  }

  // Walked names are C strings.
  lemma {:induction false} WalkedNames(mem: seq<u8>, at: nat)
    requires Walk(mem, at).Some?
    ensures forall e :: e in Walk(mem, at).value ==> 0 !in e.name && e.name != []
    decreases |mem|
  {
    if mem[0] != 0 {
      WalkedNames(mem[NextHeader(mem)..], at + NextHeader(mem));
    }
  }

  // --- Loading an archive, then looking a name up ---

  ghost predicate FirstNamed(files: seq<Member>, i: nat, name: seq<u8>) {
    i < |files| && files[i].name == name && forall j :: 0 <= j < i ==> files[j].name != name
  }

  // The node has the file's name, and its data points at the file's contents.
  ghost predicate Serves(node: FSNode, image: seq<u8>, m: Member)
    reads node
  {
    && node.name == m.name && node.size == |m.contents|
    && node.data + node.size <= |image| && image[node.data..node.data + node.size] == m.contents
  }

  lemma {:induction false} ArchivableAt(files: seq<Member>, i: nat)
    requires AllArchivable(files) && i < |files|
    ensures Archivable(files[i])
  {
    if i > 0 {
      ArchivableAt(files[1..], i - 1);
    }
  }

  lemma NodesServe(files: seq<Member>, nodes: seq<FSNode>)
    requires AllArchivable(files) && Records(nodes, Listing(files, 0))
    ensures |nodes| == |files|
    ensures forall i :: 0 <= i < |files| ==> Archivable(files[i]) && Serves(nodes[i], Encode(files), files[i])
    ensures forall i :: 0 <= i < |files| ==> nodes[i].name == files[i].name
  {
    hide AllArchivable, Archivable, Listing, Encode;
    forall i | 0 <= i < |files|
      ensures Archivable(files[i]) && Serves(nodes[i], Encode(files), files[i])
    {
      ArchivableAt(files, i);
      DataIsThere(files, 0, i);
    }
  }

  // In an archive that can be loaded, every name leads to the contents of the first
  // file that has it, and other names lead nowhere.
  method FindInArchive(image: seq<u8>, name: seq<u8>, ghost files: seq<Member>) returns (found: FSNode?)
    requires AllArchivable(files) && Loadable(files) && image == Encode(files) && 0 !in name
    ensures found == null <==> forall i :: 0 <= i < |files| ==> files[i].name != name
    ensures found != null ==> exists i: nat :: FirstNamed(files, i, name) && Serves(found, image, files[i])
  {
    hide AllArchivable, Loadable, Listing, Encode, Walk, Linked, Records, Serves;
    WalkInvertsEncode(files, 0);
    var ok, first, nodes := LoadUstar(image);
    NodesServe(files, nodes);
    var panic: bool;
    found, panic := TarFindFile(first, nodes, name);
    if found != null {
      ghost var i: nat :| IsFirst(nodes, i, name) && found == nodes[i];
      assert FirstNamed(files, i, name) && Serves(found, image, files[i]);
    }
  }
}
