// The mark-and-sweep collector of usr/lisp/scope.c.
module Collector {
  import opened Words
  import opened ScopeTable
  import opened DynamicArray
  import Ast

  datatype Kind =
    | AstPair | AstQuotePair | AstSymbol | AstQuoteSymbol | AstInt | AstPath | AstString | AstMethod

  // A node as the collector sees it: its kind, links and data never change once it is
  // built, only the mark does. For methods, p1 and p2 are the parameters and the
  // body: the union overlays them.
  class ASTNode {
    const kind: Kind
    const p1: ASTNode?
    const p2: ASTNode?
    const span: string
    const num: u32
    const prim: Option<Ast.Prim>
    var gcMark: bool
    // Nodes are built bottom-up; the rank witnesses that no path returns to its start.
    ghost const rank: nat

    constructor (kind: Kind, p1: ASTNode?, p2: ASTNode?, span: string, num: u32, prim: Option<Ast.Prim>,
                 ghost rank: nat)
      ensures this.kind == kind && this.p1 == p1 && this.p2 == p2 && this.rank == rank && !gcMark
      ensures this.span == span && this.num == num && this.prim == prim
    {
      this.kind, this.p1, this.p2, this.rank := kind, p1, p2, rank;
      this.span, this.num, this.prim := span, num, prim;
      gcMark := false;
    }

    predicate Branches() {
      kind == AstPair || kind == AstQuotePair || kind == AstMethod
    }

    // The node owns a buffer of characters.
    predicate HasSpan() {
      kind == AstSymbol || kind == AstQuoteSymbol || kind == AstPath || kind == AstString
    }
  }

  // What can be handed to free: a node's span, and the node itself.
  datatype Block = SpanOf(node: ASTNode) | NodeItself(node: ASTNode)

  ghost predicate LinkOk(n: ASTNode, child: ASTNode?, S: set<ASTNode>) {
    child != null ==> child in S && child.rank < n.rank
  }

  // The nodes form an acyclic graph with no links leaving it.
  ghost predicate Closed(S: set<ASTNode>) {
    forall n :: n in S && n.Branches() ==> LinkOk(n, n.p1, S) && LinkOk(n, n.p2, S)
  }

  // Everything reachable from a pointer, itself included.
  ghost function Below(n: ASTNode?, S: set<ASTNode>): set<ASTNode>
    requires Closed(S) && (n != null ==> n in S)
    decreases if n == null then 0 else n.rank + 1
  {
    if n == null then {}
    else if n.Branches() then {n} + Below(n.p1, S) + Below(n.p2, S)
    else {n}
  }

  ghost predicate ChildrenIn(T: set<ASTNode>)
  {
    forall n :: n in T && n.Branches() ==> (n.p1 != null ==> n.p1 in T) && (n.p2 != null ==> n.p2 in T)
  }

  // What is reachable from a pointer is closed under children...
  lemma {:induction false} BelowIsClosed(n: ASTNode?, S: set<ASTNode>)
    requires Closed(S) && (n != null ==> n in S)
    ensures Below(n, S) <= S && ChildrenIn(Below(n, S))
    ensures n != null ==> n in Below(n, S)
    decreases if n == null then 0 else n.rank + 1
  {
    if n != null && n.Branches() {
      BelowIsClosed(n.p1, S);
      BelowIsClosed(n.p2, S);
    }
  }

  // ... and is the least such set: no other holding the pointer leaves any of it out.
  lemma {:induction false} BelowIsLeast(n: ASTNode?, S: set<ASTNode>, T: set<ASTNode>)
    requires Closed(S) && (n != null ==> n in S)
    requires ChildrenIn(T) && (n != null ==> n in T)
    ensures Below(n, S) <= T
    decreases if n == null then 0 else n.rank + 1
  {
    if n != null && n.Branches() {
      BelowIsLeast(n.p1, S, T);
      BelowIsLeast(n.p2, S, T);
    }
  }

  // ---------- roots ----------

  ghost function ChainRoots(c: Chain<ASTNode?>): set<ASTNode?> {
    set j | 0 <= j < |c| :: c[j].node
  }

  ghost function Roots(chains: seq<Chain<ASTNode?>>): set<ASTNode?> {
    set b, j | 0 <= b < |chains| && 0 <= j < |chains[b]| :: chains[b][j].node
  }

  ghost predicate RootsIn(roots: set<ASTNode?>, S: set<ASTNode>) {
    forall r: ASTNode? :: r in roots && r != null ==> r in S
  }

  ghost predicate Live(n: ASTNode, roots: set<ASTNode?>, S: set<ASTNode>)
    requires Closed(S) && RootsIn(roots, S)
  {
    exists r: ASTNode? :: r in roots && n in Below(r, S)
  }

  ghost function LiveSet(roots: set<ASTNode?>, S: set<ASTNode>): set<ASTNode>
    requires Closed(S) && RootsIn(roots, S)
  {
    set n | n in S && Live(n, roots, S)
  }

  // The live nodes are the least set that holds the table's nodes and the
  // children of its members.
  lemma LiveIsLeast(roots: set<ASTNode?>, S: set<ASTNode>)
    requires Closed(S) && RootsIn(roots, S)
    ensures RootsIn(roots, LiveSet(roots, S)) && ChildrenIn(LiveSet(roots, S))
    ensures forall T: set<ASTNode> :: RootsIn(roots, T) && ChildrenIn(T) ==> LiveSet(roots, S) <= T
  {
    var L := LiveSet(roots, S);
    forall r: ASTNode? | r in roots
      ensures Below(r, S) <= L && ChildrenIn(Below(r, S)) && (r != null ==> r in L)
      ensures forall T: set<ASTNode> :: RootsIn(roots, T) && ChildrenIn(T) ==> Below(r, S) <= T
    {
      BelowIsClosed(r, S);
      forall T: set<ASTNode> | RootsIn(roots, T) && ChildrenIn(T)
        ensures Below(r, S) <= T
      {
        BelowIsLeast(r, S, T);
      }
    }
    forall n | n in L && n.Branches()
      ensures (n.p1 != null ==> n.p1 in L) && (n.p2 != null ==> n.p2 in L)
    {
      var r: ASTNode? :| r in roots && n in Below(r, S);
      assert ChildrenIn(Below(r, S));
    }
  }

  // The first node points at the second: pairs, quoted pairs and methods do, and only
  // they.
  ghost predicate IsChild(parent: ASTNode, n: ASTNode) {
    && (parent.kind == AstPair || parent.kind == AstQuotePair || parent.kind == AstMethod)
    && (n == parent.p1 || n == parent.p2)
  }

  // Exactly the nodes that table entries lead to over such links: no entry's node, no
  // child of a member is missing, and every member is one of these.
  ghost predicate Reached(L: set<ASTNode>, roots: set<ASTNode?>) {
    && (forall r: ASTNode? :: r in roots && r != null ==> r in L)
    && (forall m :: m in L && (m.kind == AstPair || m.kind == AstQuotePair || m.kind == AstMethod) ==>
          (m.p1 != null ==> m.p1 in L) && (m.p2 != null ==> m.p2 in L))
    && (forall n :: n in L ==> n in roots || exists parent :: parent in L && IsChild(parent, n))
  }

  lemma {:induction false} BelowHasParents(n: ASTNode?, S: set<ASTNode>, m: ASTNode)
    requires Closed(S) && (n != null ==> n in S) && m in Below(n, S)
    ensures m == n || exists parent :: parent in Below(n, S) && IsChild(parent, m)
    decreases if n == null then 0 else n.rank + 1
  {
    if m != n && n != null {
      var next := if m in Below(n.p1, S) then n.p1 else n.p2;
      BelowIsClosed(next, S);
      BelowHasParents(next, S, m);
      if m == next {
        BelowIsClosed(n, S);
        assert IsChild(n, m);
      }
    }
  }

  lemma LiveIsReached(roots: set<ASTNode?>, S: set<ASTNode>)
    requires Closed(S) && RootsIn(roots, S)
    ensures Reached(LiveSet(roots, S), roots)
  {
    var L := LiveSet(roots, S);
    LiveIsLeast(roots, S);
    forall n | n in L && n !in roots
      ensures exists parent :: parent in L && IsChild(parent, n)
    {
      var r: ASTNode? :| r in roots && n in Below(r, S);
      BelowHasParents(r, S, n);
      var parent :| parent in Below(r, S) && IsChild(parent, n);
      BelowIsClosed(r, S);
      assert Live(parent, roots, S);
    }
  }

  // ---------- what nodes stand for ----------

  // The syntax tree that a pointer stands for, if all its nodes belong to the set.
  ghost function Denotes(n: ASTNode?, S: set<ASTNode>): Option<Ast.Ref>
    decreases if n == null then 0 else n.rank + 1
  {
    if n == null then Some(Ast.Null)
    else if n !in S then None
    else match n.kind
      case AstSymbol => Some(Ast.To(Ast.Symbol(n.span)))
      case AstQuoteSymbol => Some(Ast.To(Ast.QuoteSymbol(n.span)))
      case AstPath => Some(Ast.To(Ast.Path(n.span)))
      case AstString => Some(Ast.To(Ast.Str(n.span)))
      case AstInt => Some(Ast.To(Ast.Int(n.num)))
      case AstPair =>
        if !Falls(n) then None else TwoParts(Denotes(n.p1, S), Denotes(n.p2, S), (a, b) => Ast.Pair(a, b))
      case AstQuotePair =>
        if !Falls(n) then None else TwoParts(Denotes(n.p1, S), Denotes(n.p2, S), (a, b) => Ast.QuotePair(a, b))
      case AstMethod =>
        if n.prim.Some? then Some(Ast.To(Ast.Builtin(n.prim.value)))
        else if !Falls(n) then None else TwoParts(Denotes(n.p1, S), Denotes(n.p2, S), (a, b) => Ast.Method(a, b))
  }

  // The links go to nodes built earlier.
  ghost predicate Falls(n: ASTNode) {
    (n.p1 != null ==> n.p1.rank < n.rank) && (n.p2 != null ==> n.p2.rank < n.rank)
  }

  ghost function TwoParts(a: Option<Ast.Ref>, b: Option<Ast.Ref>, make: (Ast.Ref, Ast.Ref) -> Ast.Node):
    Option<Ast.Ref>
  {
    if a.Some? && b.Some? then Some(Ast.To(make(a.value, b.value))) else None
  }

  // What is kept of a closed set, and closed itself, stands for what it stood for.
  lemma {:induction false} DenotesTheSame(n: ASTNode?, L: set<ASTNode>, S: set<ASTNode>)
    requires Closed(S) && Closed(L) && L <= S && (n != null ==> n in L)
    ensures Denotes(n, L).Some? && Denotes(n, L) == Denotes(n, S)
    decreases if n == null then 0 else n.rank + 1
  {
    if n != null && (n.kind == AstPair || n.kind == AstQuotePair || n.kind == AstMethod) {
      assert LinkOk(n, n.p1, L) && LinkOk(n, n.p2, L);
      DenotesTheSame(n.p1, L, S);
      DenotesTheSame(n.p2, L, S);
    }
  }

  lemma LiveStep(seen: set<ASTNode?>, r: ASTNode?, S: set<ASTNode>)
    requires Closed(S) && RootsIn(seen, S) && RootsIn({r}, S)
    ensures forall n :: n in S ==> Live(n, seen + {r}, S) == (Live(n, seen, S) || n in Below(r, S))
  {
    forall n | n in S && n in Below(r, S)
      ensures Live(n, seen + {r}, S)
    {
      assert r in seen + {r};
    }
  }

  lemma ChainRootsStep(c: Chain<ASTNode?>, j: nat)
    requires j < |c|
    ensures ChainRoots(c[..j + 1]) == ChainRoots(c[..j]) + {c[j].node}
  {
    assert c[..j + 1][j].node == c[j].node;
    forall k | 0 <= k < j
      ensures c[k].node in ChainRoots(c[..j]) && c[k].node in ChainRoots(c[..j + 1])
    {
      assert c[..j][k].node == c[k].node == c[..j + 1][k].node;
    }
  }

  lemma RootsStep(chains: seq<Chain<ASTNode?>>, i: nat)
    requires i < |chains|
    ensures Roots(chains[..i + 1]) == Roots(chains[..i]) + ChainRoots(chains[i])
    ensures ChainRoots(chains[i]) <= Roots(chains)
  {
  }

  // The elements of the first k of s that belong to K, in order.
  ghost function KeepFirst(s: seq<ASTNode>, k: nat, K: set<ASTNode>): seq<ASTNode>
    requires k <= |s|
  {
    if k == 0 then []
    else if s[k - 1] in K then KeepFirst(s, k - 1, K) + [s[k - 1]]
    else KeepFirst(s, k - 1, K)
  }

  ghost function Keep(s: seq<ASTNode>, K: set<ASTNode>): seq<ASTNode> {
    KeepFirst(s, |s|, K)
  }

  ghost predicate Distinct(s: seq<ASTNode>) {
    forall i, j :: 0 <= i < j < |s| ==> s[i] != s[j]
  }

  lemma DistinctAt(s: seq<ASTNode>, k: nat)
    requires Distinct(s) && k < |s|
    ensures forall m :: 0 <= m < |s| && m != k ==> s[m] != s[k]
  {
  }

  lemma {:induction false} KeepMembers(s: seq<ASTNode>, k: nat, K: set<ASTNode>)
    requires Distinct(s) && k <= |s|
    ensures forall n :: n in KeepFirst(s, k, K) <==> n in s[..k] && n in K
    ensures Distinct(KeepFirst(s, k, K))
  {
    if k > 0 {
      KeepMembers(s, k - 1, K);
      assert s[..k] == s[..k - 1] + [s[k - 1]];
      assert s[k - 1] !in s[..k - 1];
    }
  }

  ghost function Elements(s: seq<ASTNode>): set<ASTNode> {
    set n | n in s
  }

  lemma KeepElements(s: seq<ASTNode>, K: set<ASTNode>)
    requires Distinct(s) && K <= Elements(s)
    ensures Distinct(Keep(s, K)) && Elements(Keep(s, K)) == K
  {
    KeepMembers(s, |s|, K);
    assert s[..|s|] == s;
    assert forall n :: n in K ==> n in Elements(s);
    assert forall n :: n in KeepFirst(s, |s|, K) <==> n in K;
    assert Elements(KeepFirst(s, |s|, K)) == K;
  }

  // A set of nodes closed under children inherits acyclicity.
  lemma ClosedSubset(L: set<ASTNode>, S: set<ASTNode>)
    requires Closed(S) && L <= S && ChildrenIn(L)
    ensures Closed(L)
  {
    forall n | n in L && n.Branches()
      ensures LinkOk(n, n.p1, L) && LinkOk(n, n.p2, L)
    {
      assert LinkOk(n, n.p1, S) && LinkOk(n, n.p2, S);
    }
  }

  lemma OneMoreNode(all: seq<ASTNode>, n: ASTNode, roots: set<ASTNode?>)
    requires Distinct(all) && Closed(Elements(all)) && RootsIn(roots, Elements(all)) && n !in Elements(all)
    requires LinkOk(n, n.p1, Elements(all)) && LinkOk(n, n.p2, Elements(all))
    ensures Elements(all + [n]) == Elements(all) + {n}
    ensures Distinct(all + [n]) && Closed(Elements(all + [n])) && RootsIn(roots, Elements(all + [n]))
  {
    assert Elements(all + [n]) == Elements(all) + {n};
  }

  // The list during a sweep: those of the first k nodes that are live, in front of
  // the nodes not seen yet.
  ghost predicate Swept(contents: seq<ASTNode?>, s: seq<ASTNode>, k: nat, live: set<ASTNode>) {
    k <= |s| && contents == KeepFirst(s, k, live) + s[k..]
  }

  lemma SweptSize(contents: seq<ASTNode?>, s: seq<ASTNode>, k: nat, live: set<ASTNode>, i: nat)
    requires Swept(contents, s, k, live) && i == |KeepFirst(s, k, live)|
    ensures |contents| == i + |s| - k
    ensures k == |s| ==> contents == Keep(s, live)
  {
  }

  // Taking the first node off the part not seen, or leaving it where it is.
  lemma Advance(contents: seq<ASTNode?>, s: seq<ASTNode>, k: nat, live: set<ASTNode>)
    requires k < |s| && Swept(contents, s, k, live)
    ensures var i := |KeepFirst(s, k, live)|;
            && i < |contents| && contents[i] == s[k]
            && (s[k] !in live ==> Swept(contents[..i] + contents[i + 1..], s, k + 1, live))
            && (s[k] in live ==> Swept(contents, s, k + 1, live))
  {
  }

  // i++ and i-- on an unsigned word.
  function Increment(i: u32): (r: u32)
    ensures r == if i == TWO32 - 1 then 0 else i + 1
  {
    (i + 1) % TWO32
  }

  function Decrement(i: u32): (r: u32)
    ensures r == if i == 0 then TWO32 - 1 else i - 1
  {
    (i - 1) % TWO32
  }

  // ---------- the store ----------

  // struct Scope with the node list that the collector sweeps.
  class Store {
    const table: Scope<ASTNode?>
    const nodes: Array<ASTNode?>
    ghost var all: seq<ASTNode>

    ghost function Nodes(): set<ASTNode>
      reads this
    {
      Elements(all)
    }

    // Every node ever reachable is listed exactly once, and marks are clear.
    ghost predicate Valid()
      reads this, table, table.data, nodes, nodes.data, Nodes()
    {
      && table.Valid()
      && nodes.Valid()
      && nodes.data as object != table.data
      && Listed()
      && Closed(Nodes())
      && RootsIn(Roots(table.data[..]), Nodes())
      && (forall n :: n in Nodes() ==> !n.gcMark)
    }

    ghost predicate Listed()
      reads this, nodes, nodes.data
    {
      && nodes.Valid()
      && nodes.Contents() == all
      && Distinct(all)
    }

    constructor ()
      ensures Valid() && all == []
      ensures fresh(table) && fresh(table.data) && fresh(nodes) && fresh(nodes.data)
    {
      table := new Scope<ASTNode?>();
      nodes := new Array<ASTNode?>();
      all := [];
    }

    // scope_kmalloc followed by filling in the node.
    method NewNode(kind: Kind, p1: ASTNode?, p2: ASTNode?, span: string, num: u32, prim: Option<Ast.Prim>)
      returns (n: ASTNode)
      requires Valid()
      requires (p1 != null ==> p1 in Nodes()) && (p2 != null ==> p2 in Nodes())
      modifies this, nodes, nodes.data
      ensures Valid() && fresh(n) && all == old(all) + [n]
      ensures n.kind == kind && n.p1 == p1 && n.p2 == p2 && n.span == span && n.num == num && n.prim == prim
      ensures nodes.data == old(nodes.data) || fresh(nodes.data)
    {
      hide Good, Closed, RootsIn, Roots, Distinct;
      ghost var r1 := if p1 == null then 0 else p1.rank;
      ghost var r2 := if p2 == null then 0 else p2.rank;
      n := new ASTNode(kind, p1, p2, span, num, prim, r1 + r2 + 1);
      nodes.Push(n);
      OneMoreNode(all, n, Roots(table.data[..]));
      all := all + [n];
    }

    // Marks everything reachable from the node. It never looks at the mark it
    // sets, so it ends only because the graph has no cycle.
    static method MarkNode(node: ASTNode?, ghost S: set<ASTNode>)
      requires Closed(S) && (node != null ==> node in S)
      modifies S`gcMark
      ensures forall n :: n in S ==> n.gcMark == (old(n.gcMark) || n in Below(node, S))
      decreases if node == null then 0 else node.rank + 1
    {
      if node == null {
        return;
      }
      node.gcMark := true;
      if node.kind == AstPair || node.kind == AstQuotePair {
        MarkNode(node.p1, S);
        MarkNode(node.p2, S);
      } else if node.kind == AstMethod {
        MarkNode(node.p2, S);
        MarkNode(node.p1, S);
      }
    }

    // Marks everything reachable from the entries of one chain.
    static method MarkChain(chain: Chain<ASTNode?>, ghost before: set<ASTNode?>, ghost S: set<ASTNode>)
      requires Closed(S) && RootsIn(before, S) && RootsIn(ChainRoots(chain), S)
      requires forall n :: n in S ==> n.gcMark == Live(n, before, S)
      modifies S`gcMark
      ensures forall n :: n in S ==> n.gcMark == Live(n, before + ChainRoots(chain), S)
    {
      ghost var seen := before;
      for j := 0 to |chain|
        invariant seen == before + ChainRoots(chain[..j])
        invariant RootsIn(seen, S)
        invariant forall n :: n in S ==> n.gcMark == Live(n, seen, S)
      {
        assert chain[j].node in ChainRoots(chain);
        MarkNode(chain[j].node, S);
        LiveStep(seen, chain[j].node, S);
        ChainRootsStep(chain, j);
        seen := seen + {chain[j].node};
      }
      assert chain[..|chain|] == chain;
    }

    method Mark()
      requires Valid()
      modifies Nodes()`gcMark
      ensures forall n :: n in Nodes() ==> n.gcMark == (n in LiveSet(Roots(table.data[..]), Nodes()))
    {
      ghost var S := Nodes();
      ghost var chains := table.data[..];
      for i := 0 to table.data.Length
        invariant RootsIn(Roots(chains[..i]), S)
        invariant forall n :: n in S ==> n.gcMark == Live(n, Roots(chains[..i]), S)
      {
        RootsStep(chains, i);
        MarkChain(table.data[i], Roots(chains[..i]), S);
      }
      assert chains[..|chains|] == chains;
    }

    // The sweep has dealt with the first k nodes: marks cleared, the dead freed.
    static ghost predicate Cleared(all: seq<ASTNode>, k: nat, live: set<ASTNode>, freed: set<Block>)
      reads all
    {
      && (forall m :: 0 <= m < k && m < |all| ==>
            && !all[m].gcMark && (NodeItself(all[m]) in freed) == (all[m] !in live)
            && (SpanOf(all[m]) in freed) == (all[m] !in live && all[m].HasSpan()))
      && (forall m :: k <= m < |all| ==>
            all[m].gcMark == (all[m] in live) && NodeItself(all[m]) !in freed && SpanOf(all[m]) !in freed)
    }

    // The body of the sweep loop: looks at position i, which holds node k of the
    // whole list.
    static method Visit(nodes: Array<ASTNode?>, i: u32, ghost all: seq<ASTNode>, ghost k: nat,
                        ghost live: set<ASTNode>, ghost freed: set<Block>)
      returns (j: u32, ghost freed': set<Block>)
      requires nodes.Valid() && k < |all| < TWO32 && Distinct(all)
      requires i as int == |KeepFirst(all, k, live)| <= k
      requires Swept(nodes.Contents(), all, k, live) && Cleared(all, k, live, freed)
      modifies nodes`size, nodes.data, {all[k]}`gcMark
      ensures nodes.Valid() && nodes.data == old(nodes.data)
      ensures j as int == |KeepFirst(all, k + 1, live)| <= k + 1
      ensures Swept(nodes.Contents(), all, k + 1, live) && Cleared(all, k + 1, live, freed')
    {
      Advance(nodes.Contents(), all, k, live);
      DistinctAt(all, k);
      j, freed' := i, freed;
      var ptr := nodes.data[i] as ASTNode;
      if !ptr.gcMark {
        if ptr.HasSpan() {
          assert SpanOf(ptr) !in freed';
          freed' := freed' + {SpanOf(ptr)};
        }
        nodes.Remove(i);
        j := Decrement(j);
        assert NodeItself(ptr) !in freed';
        freed' := freed' + {NodeItself(ptr)};
      } else {
        ptr.gcMark := false;
      }
      j := Increment(j);
    }

    // Removes every unmarked node from the list, in place, and clears the marks
    // of the others. The index steps back, wrapping below zero, after a removal.
    // `freed` is what has been handed to free, nothing twice.
    static method Sweep(nodes: Array<ASTNode?>, ghost all: seq<ASTNode>, ghost S: set<ASTNode>, ghost live: set<ASTNode>)
      returns (ghost freed: set<Block>)
      requires nodes.Valid() && nodes.Contents() == all && |all| < TWO32
      requires Distinct(all) && forall i :: 0 <= i < |all| ==> all[i] in S
      requires forall i :: 0 <= i < |all| ==> all[i].gcMark == (all[i] in live)
      modifies nodes`size, nodes.data, S`gcMark
      ensures nodes.Valid() && nodes.data == old(nodes.data)
      ensures nodes.Contents() == Keep(all, live)
      ensures Cleared(all, |all|, live, freed)
    {
      ghost var k := 0;
      var i: u32 := 0;
      freed := {};
      assert Swept(nodes.Contents(), all, k, live) && Cleared(all, k, live, freed);
      hide Swept, Distinct, Cleared;
      while i < nodes.size
        invariant nodes.Valid() && nodes.data == old(nodes.data)
        invariant k <= |all| && i as int == |KeepFirst(all, k, live)| <= k
        invariant Swept(nodes.Contents(), all, k, live) && Cleared(all, k, live, freed)
        decreases |all| - k
      {
        SweptSize(nodes.Contents(), all, k, live, i);
        i, freed := Visit(nodes, i, all, k, live, freed);
        k := k + 1;
      }
      SweptSize(nodes.Contents(), all, k, live, i);
    }

    // scope_gc: afterwards the list holds exactly the nodes reachable from table
    // entries, in their old order; every entry stands for the syntax tree it stood for;
    // the other nodes have been freed with their spans, each once, and the store is as
    // valid as before.
    method Collect() returns (ghost freed: set<Block>)
      requires Valid() && |all| < TWO32
      modifies this`all, nodes`size, nodes.data, Nodes()`gcMark
      ensures Valid()
      ensures all == Keep(old(all), Nodes()) && Nodes() <= old(Nodes())
      ensures Reached(Nodes(), Roots(table.data[..]))
      ensures table.data.Length == 512
      ensures forall b, j :: 0 <= b < 512 && 0 <= j < |table.data[b]| ==>
                var entry := table.data[b][j].node;
                Denotes(entry, Nodes()).Some? && Denotes(entry, Nodes()) == Denotes(entry, old(Nodes()))
      ensures forall n :: n in all && (n.kind == AstPair || n.kind == AstQuotePair || n.kind == AstMethod) ==>
                (n.p1 != null ==> n.p1 in all) && (n.p2 != null ==> n.p2 in all)
      ensures Nodes() == LiveSet(Roots(table.data[..]), old(Nodes()))
      ensures forall n :: n in old(all) ==>
                && (NodeItself(n) in freed <==> n !in Nodes())
                && (SpanOf(n) in freed <==>
                      && n !in Nodes()
                      && (n.kind == AstSymbol || n.kind == AstQuoteSymbol || n.kind == AstPath || n.kind == AstString))
    {
      hide Good, Keep, Live, Distinct, Reached, Denotes;
      ghost var S := Nodes();
      ghost var roots := Roots(table.data[..]);
      ghost var live := LiveSet(roots, S);
      Mark();
      freed := Sweep(nodes, all, S, live);
      KeepElements(all, live);
      LiveIsLeast(roots, S);
      LiveIsReached(roots, S);
      ClosedSubset(live, S);
      all := Keep(all, live);
      assert Nodes() == live;
      forall b, j | 0 <= b < table.data.Length && 0 <= j < |table.data[b]|
        ensures var entry := table.data[b][j].node;
                Denotes(entry, live).Some? && Denotes(entry, live) == Denotes(entry, S)
      {
        assert table.data[..][b][j].node in roots;
        DenotesTheSame(table.data[b][j].node, live, S);
      }
    }
  }
}
