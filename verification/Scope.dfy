// The levelled symbol table of usr/lisp/scope.c: 512 chained buckets whose
// entries carry the nesting level at which they were added.
module ScopeTable {
  import opened Words
  import opened Hash

  datatype Entry<+N> = Entry(name: string, node: N, level: nat)
  type Chain<+N> = seq<Entry<N>>
  type Frame<+N> = map<string, N>

  // ---------- what a chain says about a name ----------

  // The first entry of the chain for the name.
  function Find<N>(c: Chain<N>, name: string): Option<Entry<N>> {
    if c == [] then None
    else if c[0].name == name then Some(c[0])
    else Find(c[1..], name)
  }

  // The node most recently bound to the name at exactly this level.
  function FindAt<N>(c: Chain<N>, name: string, l: nat): Option<N> {
    if c == [] then None
    else if c[0].name == name && c[0].level == l then Some(c[0].node)
    else FindAt(c[1..], name, l)
  }

  // All bindings of the name, newest first.
  function Bindings<N>(c: Chain<N>, name: string): seq<Entry<N>> {
    if c == [] then []
    else (if c[0].name == name then [c[0]] else []) + Bindings(c[1..], name)
  }

  // The entries left when every leading entry of at least this level is freed.
  function DropFrom<N>(c: Chain<N>, l: nat): Chain<N> {
    if c == [] || c[0].level < l then c else DropFrom(c[1..], l)
  }

  lemma {:induction false} DropFromIsSuffix<N>(c: Chain<N>, l: nat) returns (k: nat)
    ensures k <= |c| && DropFrom(c, l) == c[k..]
    ensures forall i :: 0 <= i < k ==> c[i].level >= l
    ensures k < |c| ==> c[k].level < l
  {
    if c == [] || c[0].level < l {
      k := 0;
    } else {
      var j := DropFromIsSuffix(c[1..], l);
      k := j + 1;
      assert forall i :: 0 < i < k ==> c[i] == c[1..][i - 1];
    }
  }

  // What scope_out leaves of every bucket.
  function Dropped<N>(chains: seq<Chain<N>>, l: nat): (r: seq<Chain<N>>)
    ensures |r| == |chains|
  {
    seq(|chains|, b requires 0 <= b < |chains| => DropFrom(chains[b], l))
  }

  // Levels never increase along a chain and never exceed the current level.
  ghost predicate Layered<N>(c: Chain<N>, level: nat) {
    && (forall i :: 0 <= i < |c| ==> c[i].level <= level)
    && (forall i, j :: 0 <= i < j < |c| ==> c[i].level >= c[j].level)
  }

  // ---------- the abstract view: a stack of frames ----------

  function Lookup<N>(frames: seq<Frame<N>>, name: string): Option<N> {
    if frames == [] then None
    else if name in frames[|frames| - 1] then Some(frames[|frames| - 1][name])
    else Lookup(frames[..|frames| - 1], name)
  }

  function Bind<N>(frames: seq<Frame<N>>, name: string, node: N): (r: seq<Frame<N>>)
    requires frames != []
    ensures |r| == |frames|
  {
    frames[|frames| - 1 := frames[|frames| - 1][name := node]]
  }

  // A new binding shadows every older one of its name and nothing else.
  lemma {:induction false} BindShadows<N>(frames: seq<Frame<N>>, name: string, node: N, other: string)
    requires frames != []
    ensures Lookup(Bind(frames, name, node), other) ==
            if other == name then Some(node) else Lookup(frames, other)
  {
    assert Bind(frames, name, node)[..|frames| - 1] == frames[..|frames| - 1];
  }

  function AsOption<N>(f: Frame<N>, name: string): Option<N> {
    if name in f then Some(f[name]) else None
  }

  ghost predicate Represents<N>(chains: seq<Chain<N>>, frames: seq<Frame<N>>) {
    && |chains| == SCOPE_TABLES
    && forall l: nat, name: string :: l < |frames| ==>
         FindAt(chains[Bucket(name)], name, l) == AsOption(frames[l], name)
  }

  ghost predicate AllLayered<N>(chains: seq<Chain<N>>, level: nat) {
    forall b :: 0 <= b < |chains| ==> Layered(chains[b], level)
  }

  ghost predicate Placed<N>(c: Chain<N>, b: nat) {
    forall i :: 0 <= i < |c| ==> Bucket(c[i].name) == b
  }

  ghost predicate AllPlaced<N>(chains: seq<Chain<N>>) {
    forall b: nat :: b < |chains| ==> Placed(chains[b], b)
  }

  // The table invariant: layered chains, entries in their hash buckets, and the
  // frames as the abstract value.
  ghost predicate Good<N>(chains: seq<Chain<N>>, frames: seq<Frame<N>>, level: nat) {
    |frames| == level + 1 && Represents(chains, frames) && AllLayered(chains, level) && AllPlaced(chains)
  }

  // The chains after some evaluation: each is its old self behind new entries
  // of at least the given level.
  ghost predicate Extends<N>(old_: seq<Chain<N>>, new_: seq<Chain<N>>, level: nat) {
    && |old_| == |new_|
    && forall b :: 0 <= b < |old_| ==>
         && |new_[b]| >= |old_[b]|
         && new_[b][|new_[b]| - |old_[b]|..] == old_[b]
         && forall i :: 0 <= i < |new_[b]| - |old_[b]| ==> new_[b][i].level >= level
  }

  lemma ExtendsTransitive<N>(a: seq<Chain<N>>, b: seq<Chain<N>>, c: seq<Chain<N>>, l: nat, m: nat)
    requires Extends(a, b, l) && Extends(b, c, m) && l <= m
    ensures Extends(a, c, l)
  {
    forall k | 0 <= k < |a|
      ensures |c[k]| >= |a[k]| && c[k][|c[k]| - |a[k]|..] == a[k]
      ensures forall i :: 0 <= i < |c[k]| - |a[k]| ==> c[k][i].level >= l
    {
      var d := |c[k]| - |b[k]|;
      assert c[k][d..] == b[k];
      assert forall i :: d <= i < |c[k]| ==> c[k][i] == b[k][i - d];
    }
  }

  // ---------- lemmas about single chains ----------

  // In a layered chain the first entry for a name is the one the topmost frame
  // holding that name shows.
  lemma {:induction false} FindIsTopmost<N>(c: Chain<N>, name: string, l: nat)
    requires forall i, j :: 0 <= i < j < |c| ==> c[i].level >= c[j].level
    ensures match Find(c, name)
            case None => FindAt(c, name, l) == None
            case Some(e) =>
              && (l > e.level ==> FindAt(c, name, l) == None)
              && (l == e.level ==> FindAt(c, name, l) == Some(e.node))
    ensures Find(c, name).Some? ==> Find(c, name).value in c
  {
    if c != [] {
      assert forall i :: 0 <= i < |c[1..]| ==> c[1..][i] == c[i + 1];
      FindIsTopmost(c[1..], name, l);
      if c[0].name == name && l > c[0].level {
        NothingAbove(c, name, l);
      }
    }
  }

  lemma {:induction false} NothingAbove<N>(c: Chain<N>, name: string, l: nat)
    requires forall i :: 0 <= i < |c| ==> c[i].level < l
    ensures FindAt(c, name, l) == None
  {
    if c != [] {
      NothingAbove(c[1..], name, l);
    }
  }

  lemma {:induction false} LookupTopmost<N>(frames: seq<Frame<N>>, name: string, m: nat)
    requires m < |frames| && name in frames[m]
    requires forall l :: m < l < |frames| ==> name !in frames[l]
    ensures Lookup(frames, name) == Some(frames[m][name])
    decreases |frames|
  {
    if name !in frames[|frames| - 1] {
      LookupTopmost(frames[..|frames| - 1], name, m);
    }
  }

  lemma {:induction false} LookupNowhere<N>(frames: seq<Frame<N>>, name: string)
    requires forall l :: 0 <= l < |frames| ==> name !in frames[l]
    ensures Lookup(frames, name) == None
  {
    if frames != [] {
      LookupNowhere(frames[..|frames| - 1], name);
    }
  }

  lemma {:induction false} DropKeepsBelow<N>(c: Chain<N>, name: string, l: nat, m: nat)
    requires l < m
    ensures FindAt(DropFrom(c, m), name, l) == FindAt(c, name, l)
  {
    if c != [] && c[0].level >= m {
      DropKeepsBelow(c[1..], name, l, m);
    }
  }

  lemma {:induction false} FirstBinding<N>(c: Chain<N>, name: string)
    ensures Find(c, name) == if Bindings(c, name) == [] then None else Some(Bindings(c, name)[0])
  {
    if c != [] {
      FirstBinding(c[1..], name);
    }
  }

  // Unlinking the first entry for a name at position k of the chain.
  lemma {:induction false} UnlinkFirst<N>(c: Chain<N>, name: string, k: nat)
    requires k < |c| && c[k].name == name
    requires forall i :: 0 <= i < k ==> c[i].name != name
    ensures var r := c[..k] + c[k + 1..];
            && Find(c, name) == Some(c[k])
            && Bindings(c, name) == [c[k]] + Bindings(r, name)
            && (forall other :: other != name ==> Bindings(r, other) == Bindings(c, other))
            && (forall other, l :: other != name || l != c[k].level ==> FindAt(r, other, l) == FindAt(c, other, l))
  {
    hide Find, FindAt, Bindings;
    var r, rest := c[..k] + c[k + 1..], c[1..];
    assert c == [c[0]] + rest;
    BehindHead(c[0], rest);
    if k == 0 {
      assert r == rest;
    } else {
      UnlinkFirst(rest, name, k - 1);
      assert r == [c[0]] + (rest[..k - 1] + rest[k..]);
      BehindHead(c[0], rest[..k - 1] + rest[k..]);
    }
  }

  lemma BehindHead<N>(e: Entry<N>, c: Chain<N>)
    ensures forall name :: Find([e] + c, name) == if e.name == name then Some(e) else Find(c, name)
    ensures forall name :: Bindings([e] + c, name) == (if e.name == name then [e] else []) + Bindings(c, name)
    ensures forall name, l :: FindAt([e] + c, name, l) ==
              if e.name == name && e.level == l then Some(e.node) else FindAt(c, name, l)
  {
    assert ([e] + c)[1..] == c;
  }

  lemma {:induction false} FindNone<N>(c: Chain<N>, name: string)
    requires forall i :: 0 <= i < |c| ==> c[i].name != name
    ensures Find(c, name) == None && Bindings(c, name) == []
  {
    if c != [] {
      FindNone(c[1..], name);
    }
  }

  // Leaving a level above the base never touches the base chains, and when it is
  // the level just above, what remains is the base exactly.
  lemma DropExtends<N>(base: seq<Chain<N>>, chains: seq<Chain<N>>, low: nat, level: nat)
    requires Extends(base, chains, low)
    requires forall b, i :: 0 <= b < |base| && 0 <= i < |base[b]| ==> base[b][i].level < level
    ensures Extends(base, Dropped(chains, level), low)
    ensures level <= low ==> Dropped(chains, level) == base
  {
    forall b | 0 <= b < |base|
      ensures var r := Dropped(chains, level)[b];
              && |r| >= |base[b]|
              && r[|r| - |base[b]|..] == base[b]
              && (forall i :: 0 <= i < |r| - |base[b]| ==> r[i].level >= low)
              && (level <= low ==> r == base[b])
    {
      var c := chains[b];
      var n := |c| - |base[b]|;
      var k := DropFromIsSuffix(c, level);
      assert n < |c| ==> c[n..][0] == c[n];
      assert c[k..][n - k..] == c[n..];
    }
  }

  // What may go on between scope_in and scope_out: bindings, and levels entered and
  // left again, in any order and to any depth.
  datatype Activity<+N> = Binding(name: string, node: N) | Level(inner: seq<Activity<N>>)

  // The chains and frames after some activity. Levels entered and left again leave
  // no trace.
  function ChainsAfter<N>(chains: seq<Chain<N>>, level: nat, a: seq<Activity<N>>): (r: seq<Chain<N>>)
    requires |chains| == SCOPE_TABLES
    ensures |r| == SCOPE_TABLES
    decreases |a|
  {
    if a == [] then chains
    else match a[0]
      case Level(_) => ChainsAfter(chains, level, a[1..])
      case Binding(name, node) =>
        var b := Bucket(name);
        ChainsAfter(chains[b := [Entry(name, node, level)] + chains[b]], level, a[1..])
  }

  function FramesAfter<N>(frames: seq<Frame<N>>, a: seq<Activity<N>>): (r: seq<Frame<N>>)
    requires frames != []
    ensures |r| == |frames| && r[..|r| - 1] == frames[..|frames| - 1]
    decreases |a|
  {
    if a == [] then frames
    else match a[0]
      case Level(_) => FramesAfter(frames, a[1..])
      case Binding(name, node) => FramesAfter(Bind(frames, name, node), a[1..])
  }

  lemma {:induction false} ActivityExtends<N>(chains: seq<Chain<N>>, level: nat, a: seq<Activity<N>>)
    requires |chains| == SCOPE_TABLES
    ensures Extends(chains, ChainsAfter(chains, level, a), level)
    decreases |a|
  {
    hide Extends, Bucket;
    ExtendsNothing(chains, level);
    if a != [] {
      match a[0]
      case Level(_) =>
        ActivityExtends(chains, level, a[1..]);
      case Binding(name, node) =>
        var b := Bucket(name);
        var after := chains[b := [Entry(name, node, level)] + chains[b]];
        ActivityExtends(after, level, a[1..]);
        ExtendsOne(chains, b, Entry(name, node, level));
        ExtendsTransitive(chains, after, ChainsAfter(after, level, a[1..]), level, level);
    }
  }

  lemma ExtendsNothing<N>(chains: seq<Chain<N>>, level: nat)
    ensures Extends(chains, chains, level)
  {
  }

  lemma ExtendsOne<N>(chains: seq<Chain<N>>, b: nat, e: Entry<N>)
    requires b < |chains|
    ensures Extends(chains, chains[b := [e] + chains[b]], e.level)
  {
    assert ([e] + chains[b])[1..] == chains[b];
  }

  lemma BelowNext<N>(chains: seq<Chain<N>>, level: nat)
    requires AllLayered(chains, level)
    ensures forall b, i :: 0 <= b < |chains| && 0 <= i < |chains[b]| ==> chains[b][i].level < level + 1
  {
    forall b, i | 0 <= b < |chains| && 0 <= i < |chains[b]|
      ensures chains[b][i].level < level + 1
    {
      assert Layered(chains[b], level);
    }
  }

  // Popping a level gives the chains back, whatever was bound in it.
  lemma PopUndoesActivity<N>(chains: seq<Chain<N>>, level: nat, a: seq<Activity<N>>)
    requires |chains| == SCOPE_TABLES && AllLayered(chains, level)
    ensures Dropped(ChainsAfter(chains, level + 1, a), level + 1) == chains
  {
    hide Extends, Dropped, ChainsAfter;
    ActivityExtends(chains, level + 1, a);
    BelowNext(chains, level);
    hide AllLayered;
    DropExtends(chains, ChainsAfter(chains, level + 1, a), level + 1, level + 1);
  }

  // ---------- what the updates keep ----------

  lemma GoodIsLayered<N>(chains: seq<Chain<N>>, frames: seq<Frame<N>>, level: nat)
    requires Good(chains, frames, level)
    ensures |chains| == SCOPE_TABLES && AllLayered(chains, level)
  {
  }

  lemma FindAtPush<N>(e: Entry<N>, c: Chain<N>, name: string, l: nat)
    ensures FindAt([e] + c, name, l) ==
            if e.name == name && e.level == l then Some(e.node) else FindAt(c, name, l)
  {
    assert ([e] + c)[1..] == c;
  }

  lemma AddKeepsFrames<N>(chains: seq<Chain<N>>, frames: seq<Frame<N>>, level: nat, name: string, node: N)
    requires |frames| == level + 1 && Represents(chains, frames)
    ensures var b := Bucket(name);
            Represents(chains[b := [Entry(name, node, level)] + chains[b]], Bind(frames, name, node))
  {
    var e := Entry(name, node, level);
    var after := chains[Bucket(name) := [e] + chains[Bucket(name)]];
    forall l: nat, other: string | l <= level
      ensures FindAt(after[Bucket(other)], other, l) == AsOption(Bind(frames, name, node)[l], other)
    {
      FindAtPush(e, chains[Bucket(name)], other, l);
      assert FindAt(chains[Bucket(other)], other, l) == AsOption(frames[l], other);
    }
  }

  lemma AddKeepsGood<N>(chains: seq<Chain<N>>, frames: seq<Frame<N>>, level: nat, name: string, node: N)
    requires Good(chains, frames, level)
    ensures var b := Bucket(name);
            var after := chains[b := [Entry(name, node, level)] + chains[b]];
            Good(after, Bind(frames, name, node), level) && Extends(chains, after, level)
  {
    hide Layered, Placed, Extends;
    AddKeepsFrames(chains, frames, level, name, node);
    var b := Bucket(name);
    AddKeepsChain(chains[b], b, Entry(name, node, level));
    ExtendsOne(chains, b, Entry(name, node, level));
  }

  lemma AddKeepsChain<N>(c: Chain<N>, b: nat, e: Entry<N>)
    requires Layered(c, e.level) && Placed(c, b) && Bucket(e.name) == b
    ensures Layered([e] + c, e.level) && Placed([e] + c, b)
  {
  }

  lemma DropKeepsFrames<N>(chains: seq<Chain<N>>, frames: seq<Frame<N>>, level: nat)
    requires |frames| == level + 1 && Represents(chains, frames) && level > 0
    ensures Represents(Dropped(chains, level), frames[..level])
  {
    forall l: nat, name: string | l < level
      ensures FindAt(Dropped(chains, level)[Bucket(name)], name, l) == AsOption(frames[..level][l], name)
    {
      DropKeepsBelow(chains[Bucket(name)], name, l, level);
      assert FindAt(chains[Bucket(name)], name, l) == AsOption(frames[l], name);
    }
  }

  lemma DropKeepsChain<N>(c: Chain<N>, b: nat, level: nat)
    requires Layered(c, level) && Placed(c, b) && level > 0
    ensures Layered(DropFrom(c, level), level - 1) && Placed(DropFrom(c, level), b)
  {
    var k := DropFromIsSuffix(c, level);
  }

  lemma DropKeepsGood<N>(chains: seq<Chain<N>>, frames: seq<Frame<N>>, level: nat)
    requires Good(chains, frames, level) && level > 0
    ensures Good(Dropped(chains, level), frames[..level], level - 1)
  {
    DropKeepsFrames(chains, frames, level);
    forall b: nat | b < |chains|
      ensures Layered(Dropped(chains, level)[b], level - 1) && Placed(Dropped(chains, level)[b], b)
    {
      DropKeepsChain(chains[b], b, level);
    }
  }

  lemma UnlinkKeepsFrames<N>(chains: seq<Chain<N>>, frames: seq<Frame<N>>, name: string, k: nat)
    requires Represents(chains, frames)
    requires k < |chains[Bucket(name)]| && chains[Bucket(name)][k].name == name
    requires chains[Bucket(name)][k].level < |frames|
    requires forall i :: 0 <= i < k ==> chains[Bucket(name)][i].name != name
    ensures var c := chains[Bucket(name)];
            var rest := c[..k] + c[k + 1..];
            Represents(chains[Bucket(name) := rest],
                       Uncover(frames, c[k].level, name, FindAt(rest, name, c[k].level)))
  {
    var b := Bucket(name);
    var c := chains[b];
    var rest := c[..k] + c[k + 1..];
    UnlinkFirst(c, name, k);
    forall l: nat, other: string | l < |frames|
      ensures FindAt(chains[b := rest][Bucket(other)], other, l) ==
              AsOption(Uncover(frames, c[k].level, name, FindAt(rest, name, c[k].level))[l], other)
    {
      assert FindAt(chains[Bucket(other)], other, l) == AsOption(frames[l], other);
    }
  }

  lemma UnlinkKeepsChain<N>(c: Chain<N>, k: nat, b: nat, level: nat)
    requires k < |c| && Layered(c, level) && Placed(c, b)
    ensures Layered(c[..k] + c[k + 1..], level) && Placed(c[..k] + c[k + 1..], b)
  {
    var rest := c[..k] + c[k + 1..];
    assert forall i :: 0 <= i < |rest| ==> rest[i] == if i < k then c[i] else c[i + 1];
  }

  lemma UnlinkKeepsGood<N>(chains: seq<Chain<N>>, frames: seq<Frame<N>>, level: nat, name: string, k: nat)
    requires Good(chains, frames, level)
    requires k < |chains[Bucket(name)]| && chains[Bucket(name)][k].name == name
    requires forall i :: 0 <= i < k ==> chains[Bucket(name)][i].name != name
    ensures var b := Bucket(name);
            var c := chains[b];
            var rest := c[..k] + c[k + 1..];
            Good(chains[b := rest], Uncover(frames, c[k].level, name, FindAt(rest, name, c[k].level)), level)
  {
    assert Layered(chains[Bucket(name)], level);
    UnlinkKeepsFrames(chains, frames, name, k);
    UnlinkKeepsChain(chains[Bucket(name)], k, Bucket(name), level);
  }

  // The frames once the newest binding of a name, at level l, gives way.
  function Uncover<N>(frames: seq<Frame<N>>, l: nat, name: string, previous: Option<N>): seq<Frame<N>>
    requires l < |frames|
  {
    frames[l := match previous
                case Some(n) => frames[l][name := n]
                case None => frames[l] - {name}]
  }

  // ---------- the table ----------

  class Scope<N> {
    const data: array<Chain<N>>
    var level: nat
    ghost var frames: seq<Frame<N>>

    ghost function Chains(): seq<Chain<N>>
      reads this, data
    {
      data[..]
    }

    ghost predicate Valid()
      reads this, data
    {
      data.Length == SCOPE_TABLES && |frames| == level + 1 && Good(data[..], frames, level)
    }

    constructor ()
      ensures Valid() && fresh(data)
      ensures level == 0 && frames == [map[]]
      ensures forall b :: 0 <= b < data.Length ==> data[b] == []
    {
      data := new Chain<N>[SCOPE_TABLES](_ => []);
      level := 0;
      frames := [map[]];
    }

    method Add(name: string, node: N)
      requires Valid()
      modifies this`frames, data
      ensures Valid() && level == old(level)
      ensures frames == Bind(old(frames), name, node)
      ensures Chains() == old(Chains())[Bucket(name) := [Entry(name, node, level)] + old(data[Bucket(name)])]
      ensures Extends(old(Chains()), Chains(), level)
    {
      var h := PjwHash(Bytes(name));
      var bucket := h % SCOPE_TABLES;
      AddKeepsGood(data[..], frames, level, name, node);
      data[bucket] := [Entry(name, node, level)] + data[bucket];
      frames := Bind(frames, name, node);
      assert data[..] == old(data[..])[bucket := data[bucket]];
    }

    method LookUp(name: string) returns (r: Option<Entry<N>>)
      requires Valid()
      ensures r == Find(data[Bucket(name)], name)
      ensures Lookup(frames, name) == if r.Some? then Some(r.value.node) else None
    {
      var h := PjwHash(Bytes(name));
      var chain := data[h % SCOPE_TABLES];
      var i := 0;
      while i < |chain| && chain[i].name != name
        invariant 0 <= i <= |chain|
        invariant Find(chain, name) == Find(chain[i..], name)
      {
        i := i + 1;
      }
      r := if i < |chain| then Some(chain[i]) else None;
      LookupMatches(name);
    }

    lemma LookupMatches(name: string)
      requires Valid()
      ensures Lookup(frames, name) ==
              match Find(data[Bucket(name)], name) case None => None case Some(e) => Some(e.node)
    {
      var c := data[Bucket(name)];
      forall l: nat | l < |frames|
        ensures AsOption(frames[l], name) == FindAt(c, name, l)
      {
        assert data[..][Bucket(name)] == c;
      }
      match Find(c, name)
      case None =>
        forall l: nat | l < |frames|
          ensures name !in frames[l]
        {
          FindIsTopmost(c, name, l);
        }
        LookupNowhere(frames, name);
      case Some(e) =>
        FindIsTopmost(c, name, e.level);
        forall l: nat | e.level < l < |frames|
          ensures name !in frames[l]
        {
          FindIsTopmost(c, name, l);
        }
        LookupTopmost(frames, name, e.level);
    }

    method In()
      requires Valid()
      modifies this
      ensures Valid() && level == old(level) + 1
      ensures frames == old(frames) + [map[]]
      ensures Chains() == old(Chains())
    {
      level := level + 1;
      frames := frames + [map[]];
      forall name: string
        ensures FindAt(data[Bucket(name)], name, level) == None
      {
        NothingAbove(data[Bucket(name)], name, level);
      }
    }

    method Out()
      requires Valid() && level > 0
      modifies this, data
      ensures Valid() && level == old(level) - 1
      ensures frames == old(frames)[..old(level)]
      ensures Chains() == Dropped(old(Chains()), old(level))
    {
      DropKeepsGood(data[..], frames, level);
      DropBuckets(data, level);
      frames := frames[..level];
      level := level - 1;
    }

    // Carries out some activity in the current level.
    method Perform(a: seq<Activity<N>>)
      requires Valid()
      modifies this, data
      ensures Valid() && level == old(level)
      ensures frames == FramesAfter(old(frames), a)
      ensures Chains() == ChainsAfter(old(Chains()), level, a)
      decreases a, 0
    {
      hide Good, Dropped;
      ghost var frames0, chains0 := frames, Chains();
      for i := 0 to |a|
        invariant Valid() && level == old(level)
        invariant FramesAfter(frames0, a) == FramesAfter(frames, a[i..])
        invariant ChainsAfter(chains0, level, a) == ChainsAfter(Chains(), level, a[i..])
      {
        assert a[i..][1..] == a[i + 1..];
        match a[i] {
          case Binding(name, node) => Add(name, node);
          case Level(inner) => Enclosed(inner);
        }
      }
    }

    // scope_in, any activity, scope_out: every chain, every frame and so every
    // lookup is what it was.
    method Enclosed(a: seq<Activity<N>>)
      requires Valid()
      modifies this, data
      ensures Valid() && level == old(level)
      ensures Chains() == old(Chains()) && frames == old(frames)
      ensures forall name :: Find(data[Bucket(name)], name) == old(Find(data[Bucket(name)], name))
      ensures forall name :: Lookup(frames, name) == old(Lookup(frames, name))
      decreases a, 1
    {
      GoodIsLayered(Chains(), frames, level);
      PopUndoesActivity(Chains(), level, a);
      hide Good, Dropped, AllLayered;
      In();
      Perform(a);
      Out();
      SameFinds(old(Chains()));
    }

    lemma SameFinds(chains: seq<Chain<N>>)
      requires Valid() && Chains() == chains
      ensures |chains| == SCOPE_TABLES
      ensures forall name :: Find(data[Bucket(name)], name) == Find(chains[Bucket(name)], name)
    {
    }

    static method DropBuckets(data: array<Chain<N>>, level: nat)
      modifies data
      ensures data[..] == Dropped(old(data[..]), level)
    {
      for i := 0 to data.Length
        invariant forall b :: 0 <= b < i ==> data[b] == DropFrom(old(data[b]), level)
        invariant forall b :: i <= b < data.Length ==> data[b] == old(data[b])
      {
        data[i] := RecursivelyDelete(data[i], level);
      }
      assert data[..] == Dropped(old(data[..]), level);
    }

    // Frees leading entries until one below the level, or the end of the chain.
    static method RecursivelyDelete(entry: Chain<N>, from: nat) returns (r: Chain<N>)
      ensures r == DropFrom(entry, from)
      decreases |entry|
    {
      if entry == [] {
        return [];
      }
      if entry[0].level < from {
        return entry;
      }
      r := RecursivelyDelete(entry[1..], from);
    }

    // Unlinks the newest binding of the name, uncovering the one before it; the
    // result says whether there was one.
    method Del(name: string) returns (found: bool)
      requires Valid()
      modifies this`frames, data
      ensures Valid()
      ensures found <==> old(Find(data[Bucket(name)], name)).Some?
      ensures !found ==> Chains() == old(Chains())
      ensures old(Bindings(data[Bucket(name)], name)) ==
              (match old(Find(data[Bucket(name)], name)) case Some(e) => [e] case None => []) +
              Bindings(data[Bucket(name)], name)
      ensures forall other :: other != name ==>
                Bindings(data[Bucket(other)], other) == old(Bindings(data[Bucket(other)], other))
    {
      var h := PjwHash(Bytes(name));
      var bucket := h % SCOPE_TABLES;
      var chain := data[bucket];
      var i := 0;
      while i < |chain| && chain[i].name != name
        invariant 0 <= i <= |chain|
        invariant forall k :: 0 <= k < i ==> chain[k].name != name
      {
        i := i + 1;
      }
      if i == |chain| {
        FindNone(chain, name);
        return false;
      }
      UnlinkFirst(chain, name, i);
      UnlinkKeepsGood(data[..], frames, level, name, i);
      var rest := chain[..i] + chain[i + 1..];
      frames := Uncover(frames, chain[i].level, name, FindAt(rest, name, chain[i].level));
      data[bucket] := rest;
      assert data[..] == old(data[..])[bucket := rest];
      found := true;
    }
  }
}
