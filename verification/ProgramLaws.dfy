// From the text of a program to what it prints.
module ProgramLaws {
  import opened Words

  import opened Ast
  import opened ScopeTable
  import opened Semantics
  import opened FunctionLaws
  import opened BuiltinLaws
  import opened Convert
  import G = Grammar
  import L = Lexer
  import ReaderLaws
  import Decimal

  function Returned(vs: seq<Ref>): (r: seq<Outcome>)
    ensures |r| == |vs| && forall i :: 0 <= i < |vs| ==> r[i] == Ret(vs[i])
  {
    seq(|vs|, i requires 0 <= i < |vs| => Ret(vs[i]))
  }

  // The expressions of a program are evaluated at depth 0, in order, and what each
  // gives is printed.
  lemma {:induction false} ProgramLaw(es: seq<Ref>, vs: seq<Ref>, trace: seq<St>, i: nat)
    requires InOrder(es, vs, trace, 0) && i <= |es| == |vs|
    ensures RunProgram(PairList(es[i..]), Returned(vs)[..i], trace[i]) == (Returned(vs), trace[|es|])
    decreases |es| - i
  {
    hide Eval, PairList;
    ListAt(es, i);
    if i < |es| {
      assert Step(es, vs, trace, 0, i);
      assert Returned(vs)[..i] + [Ret(vs[i])] == Returned(vs)[..i + 1];
      ProgramLaw(es, vs, trace, i + 1);
    } else {
      assert Returned(vs)[..i] == Returned(vs);
    }
  }

  // Values that denote the elements make a list that denotes the list.
  lemma {:induction false} ListOfDenoted(items: seq<G.Value>, es: seq<Ref>, i: nat)
    requires |items| == |es| && i <= |items| && forall j :: 0 <= j < |items| ==> Denotes(items[j], es[j])
    ensures DenotesList(items[i..], PairList(es[i..]))
    decreases |items| - i
  {
    hide Denotes;
    ListAt(es, i);
    if i < |items| {
      ListOfDenoted(items, es, i + 1);
      assert items[i..][1..] == items[i + 1..];
    }
  }

  lemma {:induction false} ListDenotes(items: seq<G.Value>, es: seq<Ref>)
    requires |items| == |es| > 0 && forall j :: 0 <= j < |items| ==> Denotes(items[j], es[j])
    ensures Denotes(G.List(items), PairList(es))
  {
    ListOfDenoted(items, es, 0);
    assert items[0..] == items && es[0..] == es;
  }

  // A name, in terms of its characters.
  predicate IsName(s: string) {
    s != "" && !('0' <= s[0] <= '9') && s[0] != ';' && forall i :: 0 <= i < |s| ==> !L.Delimits(s[i])
  }

  lemma {:induction false} NameDenotes(s: string)
    requires IsName(s)
    ensures Denotes(G.Name(s), To(Symbol(s)))
  {
    L.NameIsOneSymbol(s, "");
    L.LexedIsSpelled(s + "", 0);
  }

  function NameValues(names: seq<string>): (r: seq<G.Value>)
    ensures |r| == |names| && forall i :: 0 <= i < |names| ==> r[i] == G.Name(names[i])
  {
    seq(|names|, i requires 0 <= i < |names| => G.Name(names[i]))
  }

  // Numbers spelled with at least as many digits as they need.
  function NumberValues(ns: seq<u32>, widths: seq<nat>): (r: seq<G.Value>)
    requires |widths| == |ns|
    ensures |r| == |ns| && forall i :: 0 <= i < |ns| ==> r[i] == G.Number(Decimal.Digits(ns[i], widths[i]))
  {
    seq(|ns|, i requires 0 <= i < |ns| => G.Number(Decimal.Digits(ns[i], widths[i])))
  }

  // ((lambda (names) body) numbers)
  function LambdaText(names: seq<string>, body: string, ns: seq<u32>, widths: seq<nat>): G.Value
    requires |widths| == |ns|
  {
    var fn := G.List([G.Name("lambda"), G.List(NameValues(names)), G.Name(body)]);
    G.List([fn] + NumberValues(ns, widths))
  }

  lemma {:induction false} LambdaTextDenotes(names: seq<string>, body: string, ns: seq<u32>, widths: seq<nat>)
    requires names != [] && (forall i :: 0 <= i < |names| ==> IsName(names[i])) && IsName(body)
    requires |widths| == |ns| && forall i :: 0 <= i < |ns| ==> 1 <= widths[i] && ns[i] < Decimal.Pow10(widths[i])
    ensures Denotes(LambdaText(names, body, ns, widths), Applied(LambdaOf(names, To(Symbol(body))), Numbers(ns)))
  {
    hide Denotes, Decimal.Pow10, Decimal.Digits;
    forall i | 0 <= i < |names|
      ensures Denotes(G.Name(names[i]), To(Symbol(names[i])))
    {
      NameDenotes(names[i]);
    }
    ListDenotes(NameValues(names), Symbols(names));
    NameDenotes("lambda");
    NameDenotes(body);
    var parts := [To(Symbol("lambda")), PairList(Symbols(names)), To(Symbol(body))];
    ListDenotes([G.Name("lambda"), G.List(NameValues(names)), G.Name(body)], parts);
    ConsList(parts);
    var fn := G.List([G.Name("lambda"), G.List(NameValues(names)), G.Name(body)]);
    forall i | 0 <= i < |ns|
      ensures Denotes(NumberValues(ns, widths)[i], Num(ns[i]))
    {
      NumberDenotes(ns[i], widths[i]);
    }
    var all := [LambdaOf(names, To(Symbol(body)))] + Numbers(ns);
    ListDenotes([fn] + NumberValues(ns, widths), all);
    ConsList(all);
  }

  lemma {:induction false} NumberDenotes(n: u32, k: nat)
    requires 1 <= k && n < Decimal.Pow10(k)
    ensures Denotes(G.Number(Decimal.Digits(n, k)), Num(n))
  {
    assert n % TWO32 == n;
  }

  lemma {:induction false} ConsList(es: seq<Ref>)
    requires es != []
    ensures PairList(es) == Applied(es[0], es[1..])
  {
  }

  // The text ((lambda (x_0 ...) x_k) n_0 ...), with the numbers spelled by any number of
  // digits, is read, converted and run to print exactly n_k, whatever the table holds
  // besides lambda.
  lemma {:induction false} LambdaTextPrints(names: seq<string>, k: nat, ns: seq<u32>, widths: seq<nat>, st: St)
    requires k < |names| == |ns| == |widths| && DistinctNames(names)
    requires forall i :: 0 <= i < |names| ==> IsName(names[i])
    requires forall i :: 0 <= i < |ns| ==> 1 <= widths[i] && ns[i] < Decimal.Pow10(widths[i])
    requires st.frames != [] && Lookup(st.frames, "lambda") == Some(To(Builtin(Lambda)))
    ensures var v := LambdaText(names, names[k], ns, widths);
            && G.ReadAll(L.Tokens(ReaderLaws.TextOf(v), 0)) == G.Got([v], L.Last(L.Eof))
            && ReaderLaws.AllWellSpelled([v])
            && RunProgram(ConvertItems([v], false), [], st) == ([Ret(Num(ns[k]))], st)
  {
    hide Denotes, Lookup, Decimal.Pow10, Eval, RunProgram, LambdaText, G.ReadAll, L.Tokens, ReaderLaws.TextOf;
    var v := LambdaText(names, names[k], ns, widths);
    var e := Applied(LambdaOf(names, To(Symbol(names[k]))), Numbers(ns));
    LambdaTextDenotes(names, names[k], ns, widths);
    ListOfDenoted([v], [e], 0);
    assert [v][0..] == [v] && [e][0..] == [e];
    ProgramTextDenotes([v], PairList([e]));
    ReaderLaws.OneText(v);
    LambdaProgram(names, Numbers(ns), k, st, 0);
    var trace := [st, st];
    assert Step([e], [Num(ns[k])], trace, 0, 0);
    ProgramLaw([e], [Num(ns[k])], trace, 0);
    assert Returned([Num(ns[k])]) == [Ret(Num(ns[k]))] && Returned([Num(ns[k])])[..0] == [];
  }
}
