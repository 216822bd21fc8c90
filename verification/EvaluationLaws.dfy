// What evaluation promises, proved of the reference semantics; Interpreter.dfy
// carries it over to the table.
module EvaluationLaws {
  import opened Words
  import opened Ast
  import opened ScopeTable
  import opened Semantics

  // ---------- scopes ----------

  // A parameter list whose every element is a symbol.
  predicate AllSymbols(params: Ref)
    decreases Size(params)
  {
    params.Null? ||
    var car := CarField(params.node);
    car.Ptr? && car.ref.To? && car.ref.node.Symbol? && AllSymbols(CdrField(params.node))
  }

  // A list of bindings each of which is a pair with a pair behind its key.
  predicate GoodBindings(bindings: Ref)
    decreases Size(bindings)
  {
    bindings.Null? ||
    (IsPair(bindings) && IsPair(bindings.node.p1) && IsPair(bindings.node.p1.node.p2)
     && GoodBindings(bindings.node.p2))
  }

  predicate Faulted(b: Bound) {
    b.Stopped? && b.res.out.Fault?
  }

  // The parameter loop runs to its end if and only if all parameters are symbols.
  lemma {:induction false} BindsIffSymbols(params: Ref, args: Ref, st: St, d: nat)
    requires d <= MAX_EXECUTION_DEPTH && st.frames != []
    requires !Faulted(BindArgs(params, args, st, d))
    ensures BindArgs(params, args, st, d).Bound? <==> AllSymbols(params)
    decreases Size(params)
  {
    if params.To? && CarField(params.node).Ptr? {
      var param := CarField(params.node).ref;
      if param.To? && param.node.Symbol? {
        var r := Eval(CarField(args.node).ref, st, d);
        BindsIffSymbols(CdrField(params.node), CdrField(args.node), AddBinding(r.st, param.node.span, r.out.ref), d);
      }
    }
  }

  // The binding loop of let runs to its end if and only if all bindings are good.
  lemma {:induction false} BindsIffGood(bindings: Ref, st: St, d: nat)
    requires d <= MAX_EXECUTION_DEPTH && st.frames != []
    requires !Faulted(LetLoop(bindings, st, d))
    ensures LetLoop(bindings, st, d).Bound? <==> GoodBindings(bindings)
    decreases Size(bindings)
  {
    if IsPair(bindings) && IsPair(bindings.node.p1) && IsPair(bindings.node.p1.node.p2) {
      var pair := bindings.node.p1.node;
      var r := Eval(pair.p2.node.p1, st, d);
      BindsIffGood(bindings.node.p2, AddBinding(r.st, KeyName(pair.p1).value, r.out.ref), d);
    }
  }

  // Nothing evaluated after a binding loop started in the pushed frame, and nothing
  // in the body, skipped a scope_out.
  predicate QuietInside(b: Bound, body: Ref, st: St, d: nat)
    requires d <= MAX_EXECUTION_DEPTH && (b.Bound? ==> b.st.frames != [])
  {
    b.Bound? ==> b.st.leaks == st.leaks && Eval(body, b.st, d).st.leaks == st.leaks
  }

  // What is left of the frames when a function or let is done.
  lemma FramesAfterBody(st: St, b: Bound, body: Ref, d: nat, r: Res)
    requires d <= MAX_EXECUTION_DEPTH && st.frames != [] && BoundDisciplined(Push(st), b) && r.out.Ret?
    requires b.Stopped? ==> r == b.res
    requires b.Bound? ==> r == Res(Eval(body, b.st, d).out, Pop(Eval(body, b.st, d).st))
    ensures r.st.frames == st.frames <==> b.Bound? && QuietInside(b, body, st, d)
    ensures r.st.leaks == st.leaks <==> b.Bound? && QuietInside(b, body, st, d)
  {
    if b.Bound? {
      PushPop(st, Eval(body, b.st, d).st);
    }
  }

  // A user-function call that returns leaves every binding of every frame as it was
  // if and only if its parameters are symbols and nothing inside it skipped a
  // scope_out; else it has skipped one itself, or something inside it has.
  lemma CallRestoresFrames(fn: Ref, args: Ref, st: St, d: nat)
    requires d <= MAX_EXECUTION_DEPTH && st.frames != []
    requires fn.To? && fn.node.Method? && Call(fn, args, st, d).out.Ret?
    ensures var r := Call(fn, args, st, d);
            var b := BindArgs(fn.node.params, args, Push(st), d);
            && (r.st.frames == st.frames <==> AllSymbols(fn.node.params) && QuietInside(b, fn.node.body, st, d))
            && (r.st.leaks == st.leaks <==> AllSymbols(fn.node.params) && QuietInside(b, fn.node.body, st, d))
  {
    var b := BindArgs(fn.node.params, args, Push(st), d);
    BindsIffSymbols(fn.node.params, args, Push(st), d);
    FramesAfterBody(st, b, fn.node.body, d, Call(fn, args, st, d));
  }

  // The same of let, for calls that reach its loop.
  lemma LetRestoresFrames(args: Ref, st: St, d: nat)
    requires d <= MAX_EXECUTION_DEPTH && st.frames != []
    requires IsPair(args) && IsPair(args.node.p2) && RunLet(args, st, d).out.Ret?
    ensures var r := RunLet(args, st, d);
            var b, body := LetLoop(args.node.p1, Push(st), d), args.node.p2.node.p1;
            && (r.st.frames == st.frames <==> GoodBindings(args.node.p1) && QuietInside(b, body, st, d))
            && (r.st.leaks == st.leaks <==> GoodBindings(args.node.p1) && QuietInside(b, body, st, d))
  {
    var b := LetLoop(args.node.p1, Push(st), d);
    BindsIffGood(args.node.p1, Push(st), d);
    FramesAfterBody(st, b, args.node.p2.node.p1, d, RunLet(args, st, d));
  }

  // A number among the parameters or the bindings leaves the new frame in place.
  lemma NumberForNameLeaks(i: u32, body: Ref, args: Ref, st: St, d: nat)
    requires d <= MAX_EXECUTION_DEPTH && st.frames != []
    ensures Call(To(Method(PairList([Num(i)]), body)), args, st, d) == Nil(Leak(Push(st)))
    ensures RunLet(PairList([PairList([Num(i)]), body]), st, d) == Nil(Leak(Push(st)))
  {
    var bad := PairList([Num(i)]);
    assert [bad, body][1..] == [body];
    assert BindArgs(bad, args, Push(st), d) == Stopped(Nil(Leak(Push(st))));
  }

  // Whatever an expression does, a name that only outer frames bind keeps its
  // meaning for code that runs after the current frame is left.
  lemma OuterBindingsSurvive(n: Ref, st: St, d: nat, name: string)
    requires d <= MAX_EXECUTION_DEPTH && |st.frames| >= 2
    ensures var r := Eval(n, st, d);
            && |r.st.frames| >= |st.frames|
            && Lookup(r.st.frames[..|st.frames| - 1], name) == Lookup(st.frames[..|st.frames| - 1], name)
  {
    var r := Eval(n, st, d);
    assert r.st.frames[..|st.frames| - 1] == st.frames[..|st.frames| - 1];
  }

  // ---------- the depth limit ----------

  // Evaluation at depth d that does not report the limit is evaluation at depth e.
  ghost predicate SameUnlessCut(d: nat, e: nat) {
    && d <= MAX_EXECUTION_DEPTH && e <= MAX_EXECUTION_DEPTH
    && forall n: Ref, st: St {:trigger Eval(n, st, d)} :: st.frames != [] && !Eval(n, st, d).st.cut ==>
         Eval(n, st, e) == Eval(n, st, d)
  }

  lemma {:induction false} ArithShallower(p: Prim, args: Ref, first: bool, acc: u32, st: St, d: nat, e: nat)
    requires d <= MAX_EXECUTION_DEPTH && e <= MAX_EXECUTION_DEPTH && st.frames != [] && SameUnlessCut(d, e)
    requires !ArithLoop(p, args, first, acc, st, d).st.cut
    ensures ArithLoop(p, args, first, acc, st, e) == ArithLoop(p, args, first, acc, st, d)
    decreases Size(args)
  {
    hide Combine, Quotient, Eval;
    if IsPair(args) {
      var r := Eval(args.node.p1, st, d);
      if r.out.Ret? && IsInt(r.out.ref) && Combine(p, first, acc, r.out.ref.node.num).Some? {
        ArithShallower(p, args.node.p2, false, Combine(p, first, acc, r.out.ref.node.num).value, r.st, d, e);
      }
    }
  }

  lemma {:induction false} LogicShallower(conj: bool, args: Ref, st: St, d: nat, e: nat)
    requires d <= MAX_EXECUTION_DEPTH && e <= MAX_EXECUTION_DEPTH && st.frames != [] && SameUnlessCut(d, e)
    requires !LogicLoop(conj, args, st, d).st.cut
    ensures LogicLoop(conj, args, st, e) == LogicLoop(conj, args, st, d)
    decreases Size(args)
  {
    if IsPair(args) {
      var r := Eval(args.node.p1, st, d);
      if r.out.Ret? && IsInt(r.out.ref) && (r.out.ref.node.num != 0) == conj {
        LogicShallower(conj, args.node.p2, r.st, d, e);
      }
    }
  }

  lemma {:induction false} AppendShallower(args: Ref, buf: string, st: St, d: nat, e: nat)
    requires d <= MAX_EXECUTION_DEPTH && e <= MAX_EXECUTION_DEPTH && st.frames != [] && SameUnlessCut(d, e)
    requires !AppendLoop(args, buf, st, d).st.cut
    ensures AppendLoop(args, buf, st, e) == AppendLoop(args, buf, st, d)
    decreases Size(args)
  {
    if IsPair(args) {
      var r := Eval(args.node.p1, st, d);
      if r.out.Ret? && r.out.ref.To? && r.out.ref.node.Str? {
        AppendShallower(args.node.p2, buf + r.out.ref.node.span, r.st, d, e);
      }
    }
  }

  lemma {:induction false} ListShallower(args: Ref, done: seq<Ref>, st: St, d: nat, e: nat)
    requires d <= MAX_EXECUTION_DEPTH && e <= MAX_EXECUTION_DEPTH && st.frames != [] && SameUnlessCut(d, e)
    requires !ListLoop(args, done, st, d).st.cut
    ensures ListLoop(args, done, st, e) == ListLoop(args, done, st, d)
    decreases Size(args)
  {
    if args.To? && CarField(args.node).Ptr? {
      var r := Eval(CarField(args.node).ref, st, d);
      if r.out.Ret? {
        ListShallower(CdrField(args.node), done + [r.out.ref], r.st, d, e);
      }
    }
  }

  lemma {:induction false} ApplyShallower(fn: Ref, carry: Ref, data: Ref, st: St, d: nat, e: nat)
    requires d <= MAX_EXECUTION_DEPTH && e <= MAX_EXECUTION_DEPTH && st.frames != [] && SameUnlessCut(d, e)
    requires !ApplyLoop(fn, carry, data, st, d).st.cut
    ensures ApplyLoop(fn, carry, data, st, e) == ApplyLoop(fn, carry, data, st, d)
    decreases Size(data)
  {
    if data.To? && CarField(data.node).Ptr? {
      var r := Eval(PairList([fn, carry, CarField(data.node).ref]), st, d);
      if r.out.Ret? {
        ApplyShallower(fn, r.out.ref, CdrField(data.node), r.st, d, e);
      }
    }
  }

  lemma {:induction false} MapShallower(fn: Ref, args: Ref, st: St, d: nat, e: nat)
    requires d <= MAX_EXECUTION_DEPTH && e <= MAX_EXECUTION_DEPTH && st.frames != [] && SameUnlessCut(d, e)
    requires !RecursiveMap(fn, args, st, d).st.cut
    ensures RecursiveMap(fn, args, st, e) == RecursiveMap(fn, args, st, d)
    decreases Size(args)
  {
    if IsQuotePair(args) {
      var r := Eval(PairList([fn, args.node.p1]), st, d);
      if r.out.Ret? {
        MapShallower(fn, args.node.p2, r.st, d, e);
      }
    }
  }

  lemma {:induction false} UnquoteShallower(arg: Ref, st: St, d: nat, e: nat)
    requires d <= MAX_EXECUTION_DEPTH && e <= MAX_EXECUTION_DEPTH && st.frames != [] && SameUnlessCut(d, e)
    requires !UnquoteTree(arg, st, d).st.cut
    ensures UnquoteTree(arg, st, e) == UnquoteTree(arg, st, d)
    decreases Size(arg)
  {
    if IsQuotePair(arg) {
      var l := UnquoteTree(arg.node.p1, st, d);
      if l.out.Ret? {
        UnquoteShallower(arg.node.p2, l.st, d, e);
      }
      UnquoteShallower(arg.node.p1, st, d, e);
    }
  }

  lemma {:induction false} BindShallower(params: Ref, args: Ref, st: St, d: nat, e: nat)
    requires d <= MAX_EXECUTION_DEPTH && e <= MAX_EXECUTION_DEPTH && st.frames != [] && SameUnlessCut(d, e)
    requires !BoundState(BindArgs(params, args, st, d)).cut
    ensures BindArgs(params, args, st, e) == BindArgs(params, args, st, d)
    decreases Size(params)
  {
    if params.To? && CarField(params.node).Ptr? && args.To? && CarField(args.node).Ptr? {
      var param := CarField(params.node).ref;
      if param.To? && param.node.Symbol? {
        var r := Eval(CarField(args.node).ref, st, d);
        if r.out.Ret? {
          BindShallower(CdrField(params.node), CdrField(args.node),
                        AddBinding(r.st, param.node.span, r.out.ref), d, e);
        }
      }
    }
  }

  lemma {:induction false} LetShallower(bindings: Ref, st: St, d: nat, e: nat)
    requires d <= MAX_EXECUTION_DEPTH && e <= MAX_EXECUTION_DEPTH && st.frames != [] && SameUnlessCut(d, e)
    requires !BoundState(LetLoop(bindings, st, d)).cut
    ensures LetLoop(bindings, st, e) == LetLoop(bindings, st, d)
    decreases Size(bindings)
  {
    if IsPair(bindings) && IsPair(bindings.node.p1) && IsPair(bindings.node.p1.node.p2) {
      var pair := bindings.node.p1.node;
      var r := Eval(pair.p2.node.p1, st, d);
      if r.out.Ret? && KeyName(pair.p1).Some? {
        LetShallower(bindings.node.p2, AddBinding(r.st, KeyName(pair.p1).value, r.out.ref), d, e);
      }
    }
  }

  function BoundState(b: Bound): St {
    match b
    case Bound(st) => st
    case Stopped(r) => r.st
  }

  lemma PrimShallower(p: Prim, args: Ref, st: St, d: nat, e: nat)
    requires d <= MAX_EXECUTION_DEPTH && e <= MAX_EXECUTION_DEPTH && st.frames != [] && SameUnlessCut(d, e)
    requires !RunPrim(p, args, st, d).st.cut
    ensures RunPrim(p, args, st, e) == RunPrim(p, args, st, d)
  {
    hide SameUnlessCut, Disciplined, ArithLoop, LogicLoop, AppendLoop, ListLoop, RunIf, RunEq, RunDefine,
         RunDisplay, RunNot, RunCompare, RunLet, RunApply, RunMap, RunIntToString, RunCar, RunCdr, RunUnquote;
    match p
    case Add => ArithShallower(p, args, true, 0, st, d, e);
    case Sub => if args.To? { ArithShallower(p, args, true, 0, st, d, e); }
    case Mul => ArithShallower(p, args, true, 1, st, d, e);
    case Div => if args.To? { ArithShallower(p, args, true, 0, st, d, e); }
    case And => LogicShallower(true, args, st, d, e);
    case Or => LogicShallower(false, args, st, d, e);
    case StringAppend => if IsPair(args) { AppendShallower(args, "", st, d, e); }
    case List => if IsPair(args) { ListShallower(args, [], st, d, e); }
    case Let => LetCallShallower(args, st, d, e);
    case Apply => ApplyCallShallower(args, st, d, e);
    case Map => MapCallShallower(args, st, d, e);
    case Unquote => UnquoteCallShallower(args, st, d, e);
    case Define => DefineShallower(args, st, d, e);
    case If => IfShallower(args, st, d, e);
    case Eq => EqShallower(args, st, d, e);
    case Less => CompareShallower(p, args, st, d, e);
    case Greater => CompareShallower(p, args, st, d, e);
    case LessEq => CompareShallower(p, args, st, d, e);
    case GreaterEq => CompareShallower(p, args, st, d, e);
    case NotEq => CompareShallower(p, args, st, d, e);
    case Car => ListPartShallower(args, st, d, e);
    case Cdr => ListPartShallower(args, st, d, e);
    case Display => UnaryShallower(args, st, d, e);
    case Not => UnaryShallower(args, st, d, e);
    case IntToString => UnaryShallower(args, st, d, e);
    case Lambda =>
    case Quote =>
    case Range =>
  }

  lemma UnaryShallower(args: Ref, st: St, d: nat, e: nat)
    requires d <= MAX_EXECUTION_DEPTH && e <= MAX_EXECUTION_DEPTH && st.frames != [] && SameUnlessCut(d, e)
    ensures !RunDisplay(args, st, d).st.cut ==> RunDisplay(args, st, e) == RunDisplay(args, st, d)
    ensures !RunNot(args, st, d).st.cut ==> RunNot(args, st, e) == RunNot(args, st, d)
    ensures !RunIntToString(args, st, d).st.cut ==> RunIntToString(args, st, e) == RunIntToString(args, st, d)
  {
  }

  lemma DefineShallower(args: Ref, st: St, d: nat, e: nat)
    requires d <= MAX_EXECUTION_DEPTH && e <= MAX_EXECUTION_DEPTH && st.frames != [] && SameUnlessCut(d, e)
    requires !RunDefine(args, st, d).st.cut
    ensures RunDefine(args, st, e) == RunDefine(args, st, d)
  {
  }

  lemma IfShallower(args: Ref, st: St, d: nat, e: nat)
    requires d <= MAX_EXECUTION_DEPTH && e <= MAX_EXECUTION_DEPTH && st.frames != [] && SameUnlessCut(d, e)
    requires !RunIf(args, st, d).st.cut
    ensures RunIf(args, st, e) == RunIf(args, st, d)
  {
  }

  lemma EqShallower(args: Ref, st: St, d: nat, e: nat)
    requires d <= MAX_EXECUTION_DEPTH && e <= MAX_EXECUTION_DEPTH && st.frames != [] && SameUnlessCut(d, e)
    requires !RunEq(args, st, d).st.cut
    ensures RunEq(args, st, e) == RunEq(args, st, d)
  {
  }

  lemma CompareShallower(p: Prim, args: Ref, st: St, d: nat, e: nat)
    requires d <= MAX_EXECUTION_DEPTH && e <= MAX_EXECUTION_DEPTH && st.frames != [] && SameUnlessCut(d, e)
    requires !RunCompare(p, args, st, d).st.cut
    ensures RunCompare(p, args, st, e) == RunCompare(p, args, st, d)
  {
  }

  lemma ListPartShallower(args: Ref, st: St, d: nat, e: nat)
    requires d <= MAX_EXECUTION_DEPTH && e <= MAX_EXECUTION_DEPTH && st.frames != [] && SameUnlessCut(d, e)
    ensures !RunCar(args, st, d).st.cut ==> RunCar(args, st, e) == RunCar(args, st, d)
    ensures !RunCdr(args, st, d).st.cut ==> RunCdr(args, st, e) == RunCdr(args, st, d)
  {
  }

  lemma LetCallShallower(args: Ref, st: St, d: nat, e: nat)
    requires d <= MAX_EXECUTION_DEPTH && e <= MAX_EXECUTION_DEPTH && st.frames != [] && SameUnlessCut(d, e)
    requires !RunLet(args, st, d).st.cut
    ensures RunLet(args, st, e) == RunLet(args, st, d)
  {
    if IsPair(args) && IsPair(args.node.p2) {
      LetShallower(args.node.p1, Push(st), d, e);
    }
  }

  lemma ApplyCallShallower(args: Ref, st: St, d: nat, e: nat)
    requires d <= MAX_EXECUTION_DEPTH && e <= MAX_EXECUTION_DEPTH && st.frames != [] && SameUnlessCut(d, e)
    requires !RunApply(args, st, d).st.cut
    ensures RunApply(args, st, e) == RunApply(args, st, d)
  {
    if args.To? && CarField(args.node).Ptr? {
      var m := Eval(CarField(args.node).ref, st, d);
      var rest := CdrField(args.node);
      if m.out.Ret? && rest.To? && CarField(rest.node).Ptr? {
        var data := Eval(CarField(rest.node).ref, m.st, d);
        if data.out.Ret? && data.out.ref.To? && CarField(data.out.ref.node).Ptr? {
          ApplyShallower(m.out.ref, CarField(data.out.ref.node).ref, CdrField(data.out.ref.node), data.st, d, e);
        }
      }
    }
  }

  lemma MapCallShallower(args: Ref, st: St, d: nat, e: nat)
    requires d <= MAX_EXECUTION_DEPTH && e <= MAX_EXECUTION_DEPTH && st.frames != [] && SameUnlessCut(d, e)
    requires !RunMap(args, st, d).st.cut
    ensures RunMap(args, st, e) == RunMap(args, st, d)
  {
    if IsPair(args) {
      var m := Eval(args.node.p1, st, d);
      if m.out.Ret? && IsPair(args.node.p2) {
        var data := Eval(args.node.p2.node.p1, m.st, d);
        if data.out.Ret? {
          MapShallower(m.out.ref, data.out.ref, data.st, d, e);
        }
      }
    }
  }

  lemma UnquoteCallShallower(args: Ref, st: St, d: nat, e: nat)
    requires d <= MAX_EXECUTION_DEPTH && e <= MAX_EXECUTION_DEPTH && st.frames != [] && SameUnlessCut(d, e)
    requires !RunUnquote(args, st, d).st.cut
    ensures RunUnquote(args, st, e) == RunUnquote(args, st, d)
  {
    if IsPair(args) && args.node.p1.To? {
      var r := Eval(args.node.p1, st, d);
      if r.out.Ret? {
        UnquoteShallower(r.out.ref, r.st, d, e);
      }
    }
  }

  lemma CallShallower(fn: Ref, args: Ref, st: St, d: nat, e: nat)
    requires d <= MAX_EXECUTION_DEPTH && e <= MAX_EXECUTION_DEPTH && st.frames != [] && SameUnlessCut(d, e)
    requires !Call(fn, args, st, d).st.cut
    ensures Call(fn, args, st, e) == Call(fn, args, st, d)
  {
    if fn.To? && fn.node.Builtin? {
      PrimShallower(fn.node.prim, args, st, d, e);
    } else if fn.To? && fn.node.Method? {
      BindShallower(fn.node.params, args, Push(st), d, e);
    }
  }

  // One node, given the law one level deeper.
  lemma NodeShallower(n: Ref, st: St, d: nat, e: nat)
    requires e <= d < MAX_EXECUTION_DEPTH && st.frames != [] && SameUnlessCut(d + 1, e + 1)
    requires !Eval(n, st, d).st.cut
    ensures Eval(n, st, e) == Eval(n, st, d)
  {
    hide SameUnlessCut, Disciplined, Call, Lookup, Size;
    if IsPair(n) {
      var f := Eval(n.node.p1, st, d + 1);
      CutStays(st, f);
      if f.out.Ret? && f.out.ref.To? && IsMethod(f.out.ref.node) {
        CutStays(f.st, Call(f.out.ref, n.node.p2, f.st, d + 1));
        CallShallower(f.out.ref, n.node.p2, f.st, d + 1, e + 1);
      }
      SameAt(n.node.p1, st, d + 1, e + 1);
    } else if n.To? && n.node.Symbol? && Lookup(st.frames, n.node.span).Some? {
      SameAt(Lookup(st.frames, n.node.span).value, st, d + 1, e + 1);
    }
  }

  lemma CutStays(st: St, r: Res)
    requires Disciplined(st, r)
    ensures r.st.frames != [] && (st.cut ==> r.st.cut)
  {
  }

  lemma SameAt(n: Ref, st: St, d: nat, e: nat)
    requires SameUnlessCut(d, e) && st.frames != [] && !Eval(n, st, d).st.cut
    ensures Eval(n, st, e) == Eval(n, st, d)
  {
    hide Eval;
  }

  // The depth limit only ever cuts evaluation short: an evaluation that did not
  // report it gives the same outcome and the same state from any shallower depth.
  lemma {:induction false} DepthIsOnlyALimit(d: nat, e: nat)
    requires e <= d <= MAX_EXECUTION_DEPTH
    ensures SameUnlessCut(d, e)
    decreases MAX_EXECUTION_DEPTH - d
  {
    if d < MAX_EXECUTION_DEPTH {
      hide Eval;
      DepthIsOnlyALimit(d + 1, e + 1);
      forall n: Ref, st: St | st.frames != [] && !Eval(n, st, d).st.cut
        ensures Eval(n, st, e) == Eval(n, st, d)
      {
        NodeShallower(n, st, d, e);
      }
    }
  }

  // ---------- quoting ----------

  // Null is reachable from the pointer through AST_PAIR nodes alone.
  predicate ReachesNull(arg: Ref)
    decreases Size(arg)
  {
    arg.Null? || (arg.node.Pair? && (ReachesNull(arg.node.p1) || ReachesNull(arg.node.p2)))
  }

  // quote faults exactly when the quoted tree ends in null somewhere.
  lemma {:induction false} QuoteFaultsOnNull(arg: Ref)
    ensures QuoteTree(arg).Fault? <==> ReachesNull(arg)
    decreases Size(arg)
  {
    if IsPair(arg) {
      QuoteFaultsOnNull(arg.node.p1);
      QuoteFaultsOnNull(arg.node.p2);
    }
  }

  // In particular it faults on every list the reader can produce.
  lemma {:induction false} QuotingAListFaults(items: seq<Ref>, st: St, d: nat)
    requires d <= MAX_EXECUTION_DEPTH && st.frames != []
    ensures RunPrim(Quote, PairList([PairList(items)]), st, d).out.Fault?
  {
    ListReachesNull(items);
    QuoteFaultsOnNull(PairList(items));
    assert PairList([PairList(items)]).node.p1 == PairList(items);
  }

  lemma {:induction false} ListReachesNull(items: seq<Ref>)
    ensures ReachesNull(PairList(items))
  {
    if items != [] {
      ListReachesNull(items[1..]);
    }
  }
}
