// What calls of Lisp functions compute: which argument each parameter stands for, and
// what the call gives.
module FunctionLaws {
  import opened Words

  import opened Ast
  import opened ScopeTable
  import opened Semantics

  // ---------- arguments ----------

  function Numbers(ns: seq<u32>): (r: seq<Ref>)
    ensures |r| == |ns| && forall i :: 0 <= i < |ns| ==> r[i] == Num(ns[i])
  {
    seq(|ns|, i requires 0 <= i < |ns| => Num(ns[i]))
  }

  function Symbols(names: seq<string>): (r: seq<Ref>)
    ensures |r| == |names| && forall i :: 0 <= i < |names| ==> r[i] == To(Symbol(names[i]))
  {
    seq(|names|, i requires 0 <= i < |names| => To(Symbol(names[i])))
  }

  lemma {:induction false} ListAt(es: seq<Ref>, i: nat)
    requires i <= |es|
    ensures PairList(es[i..]) == if i == |es| then Null else To(Pair(es[i], PairList(es[i + 1..])))
    ensures QuoteList(es[i..]) == if i == |es| then Null else To(QuotePair(es[i], QuoteList(es[i + 1..])))
  {
    if i < |es| {
      assert es[i..][1..] == es[i + 1..];
    }
  }

  lemma {:induction false} OneOperand(e: Ref)
    ensures PairList([e]) == To(Pair(e, Null))
  {
    assert [e][1..] == [];
  }

  lemma {:induction false} ThreeOperands(a: Ref, b: Ref, c: Ref)
    ensures PairList([a, b, c]) == To(Pair(a, To(Pair(b, To(Pair(c, Null))))))
  {
    TwoOperands(b, c);
    assert [a, b, c][1..] == [b, c];
  }

  lemma {:induction false} TwoOperands(a: Ref, b: Ref)
    ensures PairList([a, b]) == To(Pair(a, To(Pair(b, Null))))
  {
    assert [a, b][1..] == [b] && [b][1..] == [];
    assert PairList([b]) == To(Pair(b, Null));
  }

  // ---------- calling functions ----------

  // The arguments are evaluated in the new frame, in order, each one after the
  // parameters before it have been bound. There may be more arguments.
  ghost predicate BoundInOrder(names: seq<string>, args: seq<Ref>, vs: seq<Ref>, trace: seq<St>, d: nat)
    requires d <= MAX_EXECUTION_DEPTH
  {
    && |vs| == |names| <= |args| && |trace| == |names| + 1
    && (forall i :: 0 <= i < |trace| ==> trace[i].frames != [])
    && (forall i :: 0 <= i < |names| ==> BindsNext(names[i], args[i], vs[i], trace[i], trace[i + 1], d))
  }

  ghost predicate BindsNext(name: string, arg: Ref, v: Ref, before: St, after: St, d: nat)
    requires d <= MAX_EXECUTION_DEPTH && before.frames != []
  {
    var r := Eval(arg, before, d);
    r.out == Ret(v) && after == AddBinding(r.st, name, v)
  }

  lemma {:induction false} ArgumentsAreBound(names: seq<string>, args: seq<Ref>, vs: seq<Ref>, trace: seq<St>, d: nat,
                                             i: nat)
    requires d <= MAX_EXECUTION_DEPTH && BoundInOrder(names, args, vs, trace, d) && i <= |names|
    ensures BindArgs(PairList(Symbols(names)[i..]), PairList(args[i..]), trace[i], d) == Bound(trace[|names|])
    decreases |names| - i
  {
    hide Eval;
    ListAt(Symbols(names), i);
    ListAt(args, i);
    if i < |names| {
      assert BindsNext(names[i], args[i], vs[i], trace[i], trace[i + 1], d);
      ArgumentsAreBound(names, args, vs, trace, d, i + 1);
    }
  }

  // The evaluation of an argument leaves a name with the meaning it had.
  ghost predicate Leaves(arg: Ref, st: St, d: nat, name: string)
    requires d <= MAX_EXECUTION_DEPTH && st.frames != []
  {
    Lookup(Eval(arg, st, d).st.frames, name) == Lookup(st.frames, name)
  }

  // From its binding on, every parameter stands for its argument.
  ghost predicate AllHold(names: seq<string>, vs: seq<Ref>, trace: seq<St>)
    requires |vs| == |names| && |trace| == |names| + 1
  {
    forall i, k :: 0 <= i < k <= |names| ==> HoldsAt(names[i], vs[i], trace[k])
  }

  ghost predicate HoldsAt(name: string, v: Ref, st: St) {
    Lookup(st.frames, name) == Some(v)
  }

  ghost predicate NoneDisturbed(names: seq<string>, args: seq<Ref>, trace: seq<St>, d: nat)
    requires d <= MAX_EXECUTION_DEPTH && |trace| == |names| + 1 && |names| <= |args|
    requires forall i :: 0 <= i < |trace| ==> trace[i].frames != []
  {
    forall i, k :: 0 <= i < k < |names| ==> Leaves(args[k], trace[k], d, names[i])
  }

  ghost predicate DistinctNames(names: seq<string>) {
    forall i, j :: 0 <= i < j < |names| ==> names[i] != names[j]
  }

  // The parameters, all different, stand for the arguments in order if and only if
  // no later argument, when it is evaluated, rebinds an earlier parameter.
  lemma {:induction false} ParametersHold(names: seq<string>, args: seq<Ref>, vs: seq<Ref>, trace: seq<St>, d: nat)
    requires d <= MAX_EXECUTION_DEPTH && BoundInOrder(names, args, vs, trace, d) && DistinctNames(names)
    ensures AllHold(names, vs, trace) <==> NoneDisturbed(names, args, trace, d)
  {
    hide Eval, Lookup, Bind;
    if NoneDisturbed(names, args, trace, d) {
      forall i, k | 0 <= i < k <= |names|
        ensures HoldsAt(names[i], vs[i], trace[k])
      {
        HeldSince(names, args, vs, trace, d, i, k);
      }
    }
    if AllHold(names, vs, trace) {
      forall i, k | 0 <= i < k < |names|
        ensures Leaves(args[k], trace[k], d, names[i])
      {
        BindingOne(names[k], args[k], vs[k], trace[k], trace[k + 1], d, names[i]);
        assert HoldsAt(names[i], vs[i], trace[k]) && HoldsAt(names[i], vs[i], trace[k + 1]);
      }
    }
  }

  lemma {:induction false} BindingOne(name: string, arg: Ref, v: Ref, before: St, after: St, d: nat, other: string)
    requires d <= MAX_EXECUTION_DEPTH && before.frames != [] && BindsNext(name, arg, v, before, after, d)
    ensures Lookup(after.frames, other) ==
            if other == name then Some(v) else Lookup(Eval(arg, before, d).st.frames, other)
  {
    hide Eval;
    BindShadows(Eval(arg, before, d).st.frames, name, v, other);
  }

  lemma {:induction false} HeldSince(names: seq<string>, args: seq<Ref>, vs: seq<Ref>, trace: seq<St>, d: nat,
                                     i: nat, k: nat)
    requires d <= MAX_EXECUTION_DEPTH && BoundInOrder(names, args, vs, trace, d) && DistinctNames(names)
    requires NoneDisturbed(names, args, trace, d) && i < k <= |names|
    ensures HoldsAt(names[i], vs[i], trace[k])
    decreases k
  {
    hide Eval, Lookup, Bind;
    BindingOne(names[k - 1], args[k - 1], vs[k - 1], trace[k - 1], trace[k], d, names[i]);
    if i < k - 1 {
      HeldSince(names, args, vs, trace, d, i, k - 1);
      assert Leaves(args[k - 1], trace[k - 1], d, names[i]);
    }
  }

  function Function(names: seq<string>, body: Ref): Ref {
    To(Method(PairList(Symbols(names)), body))
  }

  // A call evaluates the body with every parameter standing for its argument, and
  // gives what the body gives.
  lemma {:induction false} CallGivesBody(names: seq<string>, args: seq<Ref>, vs: seq<Ref>, trace: seq<St>, body: Ref,
                                         st: St, d: nat)
    requires d <= MAX_EXECUTION_DEPTH && st.frames != [] && BoundInOrder(names, args, vs, trace, d)
    requires DistinctNames(names) && trace[0] == Push(st)
    ensures var r := Eval(body, trace[|names|], d);
            Call(Function(names, body), PairList(args), st, d) == if r.out.Fault? then r else Res(r.out, Pop(r.st))
    ensures NoneDisturbed(names, args, trace, d) ==>
              forall i :: 0 <= i < |names| ==> HoldsAt(names[i], vs[i], trace[|names|])
  {
    ArgumentsAreBound(names, args, vs, trace, d, 0);
    hide Eval, BindArgs;
    assert Symbols(names)[0..] == Symbols(names) && args[0..] == args;
    ParametersHold(names, args, vs, trace, d);
  }

  // The bindings ((name_0 e_0) ...) of a let.
  function LetBindings(names: seq<string>, es: seq<Ref>): (r: seq<Ref>)
    requires |names| == |es|
    ensures |r| == |names|
    ensures forall i :: 0 <= i < |names| ==> r[i] == PairList([To(Symbol(names[i])), es[i]])
  {
    seq(|names|, i requires 0 <= i < |names| => PairList([To(Symbol(names[i])), es[i]]))
  }

  lemma {:induction false} LetIsBound(names: seq<string>, es: seq<Ref>, vs: seq<Ref>, trace: seq<St>, d: nat, i: nat)
    requires d <= MAX_EXECUTION_DEPTH && BoundInOrder(names, es, vs, trace, d) && i <= |names| == |es|
    ensures LetLoop(PairList(LetBindings(names, es)[i..]), trace[i], d) == Bound(trace[|names|])
    decreases |names| - i
  {
    hide Eval, PairList;
    ListAt(LetBindings(names, es), i);
    if i < |names| {
      assert BindsNext(names[i], es[i], vs[i], trace[i], trace[i + 1], d);
      TwoOperands(To(Symbol(names[i])), es[i]);
      LetIsBound(names, es, vs, trace, d, i + 1);
    }
  }

  // `let` evaluates its body with every name standing for its expression's value, each
  // expression seeing the names before it.
  lemma {:induction false} LetGivesBody(names: seq<string>, es: seq<Ref>, vs: seq<Ref>, trace: seq<St>, body: Ref,
                                        st: St, d: nat)
    requires d <= MAX_EXECUTION_DEPTH && st.frames != [] && BoundInOrder(names, es, vs, trace, d)
    requires DistinctNames(names) && trace[0] == Push(st) && |names| == |es|
    ensures var r := Eval(body, trace[|names|], d);
            RunPrim(Let, PairList([PairList(LetBindings(names, es)), body]), st, d) ==
            if r.out.Fault? then r else Res(r.out, Pop(r.st))
    ensures NoneDisturbed(names, es, trace, d) ==>
              forall i :: 0 <= i < |names| ==> HoldsAt(names[i], vs[i], trace[|names|])
  {
    hide Eval, LetLoop, PairList, NoneDisturbed, Disciplined, BoundDisciplined;
    LetIsBound(names, es, vs, trace, d, 0);
    assert LetBindings(names, es)[0..] == LetBindings(names, es);
    TwoOperands(PairList(LetBindings(names, es)), body);
    ParametersHold(names, es, vs, trace, d);
  }

  // It matters: ((lambda (x y) x) 1 (define x 2)) gives 2.
  lemma {:induction false} ArgumentRebinds(x: string, y: string, st: St, d: nat)
    requires d <= 60 && st.frames != [] && x != y
    ensures Call(Function([x, y], To(Symbol(x))), PairList([Num(1), DefineTwo(x)]), st, d).out == Ret(Num(2))
  {
    hide Eval, Call, Lookup, Bind, BindsNext, NoneDisturbed;
    var one, two := Num(1), Num(2);
    var s1 := AddBinding(Push(st), x, one);
    var s2 := AddBinding(s1, x, two);
    var s3 := AddBinding(s2, y, two);
    var trace := [Push(st), s1, s2.(frames := s3.frames)];
    ConstantBinds(x, one, Push(st), d);
    DefineTwoBinds(x, y, s1, d);
    CallGivesBody([x, y], [one, DefineTwo(x)], [one, two], trace, To(Symbol(x)), st, d);
    BindShadows(s1.frames, x, two, x);
    BindShadows(s2.frames, y, two, x);
    SymbolGives(x, two, s3, d);
  }

  function DefineTwo(x: string): Ref {
    Applied(To(Builtin(Define)), [To(Symbol(x)), Num(2)])
  }

  lemma {:induction false} DefineTwoBinds(x: string, y: string, st: St, d: nat)
    requires d <= 60 && st.frames != []
    ensures BindsNext(y, DefineTwo(x), Num(2), st, AddBinding(AddBinding(st, x, Num(2)), y, Num(2)), d)
  {
    hide Bind;
    TwoOperands(To(Symbol(x)), Num(2));
    Constant(To(Builtin(Define)), st, d + 1);
    Constant(Num(2), st, d + 1);
    HeadDecides(To(Builtin(Define)), PairList([To(Symbol(x)), Num(2)]), To(Builtin(Define)), st, st, d);
    assert RunPrim(Define, PairList([To(Symbol(x)), Num(2)]), st, d + 1) == Give(Num(2), AddBinding(st, x, Num(2)));
  }

  lemma {:induction false} ConstantBinds(x: string, v: Ref, st: St, d: nat)
    requires d < 64 && st.frames != [] && Settled(v)
    ensures BindsNext(x, v, v, st, AddBinding(st, x, v), d)
    ensures forall name :: Leaves(v, st, d, name)
  {
    hide Lookup, Bind;
    Constant(v, st, d);
  }

  // Numbers, strings, quoted things and functions are their own values.
  predicate Settled(r: Ref) {
    r.To? && !r.node.Pair? && !r.node.Symbol? && !r.node.Path?
  }

  lemma {:induction false} Constant(r: Ref, st: St, d: nat)
    requires d < 64 && st.frames != [] && Settled(r)
    ensures Eval(r, st, d) == Give(r, st)
  {
  }

  // What the head of a list evaluates to is called with the rest of the list; a head
  // that is no method leaves the list as it is.
  lemma {:induction false} HeadDecides(head: Ref, rest: Ref, f: Ref, st: St, mid: St, d: nat)
    requires d < 64 && st.frames != [] && mid.frames != [] && Eval(head, st, d + 1) == Give(f, mid) && f.To?
    ensures f.node.Method? ==> Eval(To(Pair(head, rest)), st, d) == Call(f, rest, mid, d + 1)
    ensures f.node.Builtin? ==> Eval(To(Pair(head, rest)), st, d) == RunPrim(f.node.prim, rest, mid, d + 1)
    ensures !f.node.Method? && !f.node.Builtin? ==> Eval(To(Pair(head, rest)), st, d) == Give(To(Pair(head, rest)), mid)
  {
    hide RunPrim, BindArgs, Disciplined;
  }

  // A name stands for the value of what it is bound to, or for null. At depth 64
  // nothing is evaluated.
  lemma {:induction false} NamesAndDepth(name: string, n: Ref, st: St, d: nat)
    requires d <= 64 && st.frames != []
    ensures d < 64 && Lookup(st.frames, name) == None ==> Eval(To(Symbol(name)), st, d) == Give(Null, st)
    ensures d < 64 && Lookup(st.frames, name).Some? ==>
              Eval(To(Symbol(name)), st, d) == Eval(Lookup(st.frames, name).value, st, d + 1)
    ensures d == 64 ==> Eval(n, st, d) == Give(Null, st.(cut := true))
  {
    hide Disciplined, Lookup;
  }

  function WithBindings(st: St, names: seq<string>, vs: seq<Ref>, n: nat): (r: St)
    requires n <= |names| == |vs|
    ensures |r.frames| == |st.frames| + 1 && Pop(r) == st
  {
    if n == 0 then Push(st) else AddBinding(WithBindings(st, names, vs, n - 1), names[n - 1], vs[n - 1])
  }

  // Constants for arguments are bound one by one, and none disturbs another.
  lemma {:induction false} ConstantsAreBound(names: seq<string>, args: seq<Ref>, st: St, d: nat)
    returns (trace: seq<St>)
    requires d < 64 && st.frames != []
    requires |names| == |args| && forall i :: 0 <= i < |args| ==> Settled(args[i])
    ensures BoundInOrder(names, args, args, trace, d) && NoneDisturbed(names, args, trace, d)
    ensures trace[0] == Push(st) && Pop(trace[|names|]) == st
  {
    hide Eval, BindsNext, Leaves, Settled;
    trace := seq(|names| + 1, i requires 0 <= i <= |names| => WithBindings(st, names, args, i));
    forall i | 0 <= i < |names|
      ensures BindsNext(names[i], args[i], args[i], trace[i], trace[i + 1], d)
      ensures forall name :: Leaves(args[i], trace[i], d, name)
    {
      ConstantBinds(names[i], args[i], trace[i], d);
    }
  }

  // The function of n different parameters that returns its kth one, applied to n
  // constants, returns the kth and leaves everything as it was.
  lemma {:induction false} KthArgument(names: seq<string>, args: seq<Ref>, k: nat, st: St, d: nat)
    requires d + 1 < 64 && st.frames != [] && DistinctNames(names)
    requires k < |names| == |args| && forall i :: 0 <= i < |args| ==> Settled(args[i])
    ensures Call(Function(names, To(Symbol(names[k]))), PairList(args), st, d) == Give(args[k], st)
  {
    hide Eval, Call, NoneDisturbed, Lookup, Settled;
    var trace := ConstantsAreBound(names, args, st, d);
    var last := trace[|names|];
    CallGivesBody(names, args, args, trace, To(Symbol(names[k])), st, d);
    assert HoldsAt(names[k], args[k], last);
    SymbolGives(names[k], args[k], last, d);
  }

  lemma {:induction false} SymbolGives(name: string, v: Ref, st: St, d: nat)
    requires d + 1 < 64 && st.frames != [] && HoldsAt(name, v, st) && Settled(v)
    ensures Eval(To(Symbol(name)), st, d) == Give(v, st)
  {
    hide Lookup;
    Constant(v, st, d + 1);
  }

  // A lambda expression is the function it says.
  lemma {:induction false} LambdaGives(names: seq<string>, body: Ref, st: St, d: nat)
    requires d + 2 < 64 && st.frames != [] && names != []
    requires Lookup(st.frames, "lambda") == Some(To(Builtin(Lambda)))
    ensures Eval(LambdaOf(names, body), st, d) == Give(Function(names, body), st)
  {
    hide Lookup;
    TwoOperands(PairList(Symbols(names)), body);
    SymbolGives("lambda", To(Builtin(Lambda)), st, d + 1);
    HeadDecides(To(Symbol("lambda")), PairList([PairList(Symbols(names)), body]), To(Builtin(Lambda)), st, st, d);
    assert RunPrim(Lambda, PairList([PairList(Symbols(names)), body]), st, d + 1) == Give(Function(names, body), st);
  }

  // The same as a program: ((lambda (x_0 ... ) x_k) c_0 ...) gives c_k.
  lemma {:induction false} LambdaProgram(names: seq<string>, args: seq<Ref>, k: nat, st: St, d: nat)
    requires d + 3 < 64 && st.frames != [] && DistinctNames(names)
    requires k < |names| == |args| && forall i :: 0 <= i < |args| ==> Settled(args[i])
    requires Lookup(st.frames, "lambda") == Some(To(Builtin(Lambda)))
    ensures Eval(Applied(LambdaOf(names, To(Symbol(names[k]))), args), st, d) == Give(args[k], st)
  {
    hide Eval, Call, Lookup, Settled, PairList, LambdaOf;
    var body := To(Symbol(names[k]));
    LambdaGives(names, body, st, d + 1);
    HeadDecides(LambdaOf(names, body), PairList(args), Function(names, body), st, st, d);
    KthArgument(names, args, k, st, d + 1);
  }

  function Applied(head: Ref, args: seq<Ref>): Ref {
    To(Pair(head, PairList(args)))
  }

  function LambdaOf(names: seq<string>, body: Ref): Ref {
    Applied(To(Symbol("lambda")), [PairList(Symbols(names)), body])
  }
}
