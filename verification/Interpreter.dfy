// The interpreter of usr/lisp/exe.c and usr/lisp/methods.c: loops and recursion
// over the shared symbol table and the global depth counter. Every method computes
// what Semantics says of the frames the table represents.
module Interpreter {
  import opened Words
  import opened Ast
  import opened ScopeTable
  import opened Semantics

  // How many frames there are after the body of a function or let.
  lemma BodyBalances(st: St, bound: St, r: Res)
    requires BoundDisciplined(Push(st), Bound(bound)) && Disciplined(bound, r)
    ensures |r.st.frames| >= |st.frames| + 1 && r.st.leaks >= st.leaks
    ensures r.out.Ret? ==> |r.st.frames| - |st.frames| - 1 == r.st.leaks - st.leaks
  {
  }

  // The entries in front of the old chains all have the level.
  ghost predicate NewAtLevel(old_: seq<Chain<Ref>>, new_: seq<Chain<Ref>>, level: nat) {
    |old_| == |new_| &&
    forall b, i :: 0 <= b < |old_| && 0 <= i < |new_[b]| - |old_[b]| ==> new_[b][i].level == level
  }

  lemma DepthOfFrames(st: St, r: Res)
    requires Disciplined(st, r)
    ensures |r.st.frames| >= |st.frames|
    ensures r.out.Ret? && r.st.leaks == st.leaks ==> |r.st.frames| == |st.frames|
  {
  }

  // A binding loop that stopped without a fault has skipped a scope_out.
  lemma StoppingLeaks(st: St, r: Res)
    requires BoundDisciplined(Push(st), Stopped(r))
    ensures r.out.Ret? ==> r.st.leaks > st.leaks
  {
  }

  class Machine {
    const scope: Scope<Ref>
    var executionDepth: nat
    ghost var leaks: nat
    ghost var cut: bool
    // Chains that evaluation must not touch, as of some earlier moment, and the
    // level that everything added since has at least.
    ghost var base: seq<Chain<Ref>>
    ghost var baseLevel: nat

    ghost predicate Valid()
      reads this, scope, scope.data
    {
      && scope.Valid()
      && AllLayered(base, baseLevel)
      && baseLevel <= scope.level
      && Extends(base, scope.Chains(), baseLevel)
    }

    ghost predicate Ready()
      reads this, scope, scope.data
    {
      Valid() && executionDepth <= MAX_EXECUTION_DEPTH
    }

    ghost function State(): St
      reads this, scope
    {
      St(scope.frames, leaks, cut)
    }

    // The call returned r and did what the reference result e says; the protected
    // chains are still in place and a returning call restored the depth counter.
    twostate predicate Did(r: Outcome, e: Res)
      reads this, scope, scope.data
    {
      && Valid() && base == old(base) && baseLevel == old(baseLevel)
      && Res(r, State()) == e
      && (r.Ret? ==> executionDepth == old(executionDepth))
    }

    constructor ()
      ensures Ready() && fresh(scope) && fresh(scope.data)
      ensures State() == St([map[]], 0, false) && executionDepth == 0
    {
      scope := new Scope<Ref>();
      executionDepth := 0;
      leaks, cut := 0, false;
      new;
      base := scope.Chains();
      baseLevel := 0;
    }

    method AddEntry(name: string, node: Ref)
      requires Ready()
      modifies scope`frames, scope.data
      ensures Ready() && scope.level == old(scope.level)
      ensures State() == AddBinding(old(State()), name, node)
    {
      ghost var before := scope.Chains();
      scope.Add(name, node);
      ExtendsTransitive(base, before, scope.Chains(), baseLevel, scope.level);
    }

    // scope_in; from here on the present chains are the protected ones.
    method Enter()
      requires Ready()
      modifies this`base, this`baseLevel, scope
      ensures Ready() && State() == Push(old(State()))
      ensures base == scope.Chains() == old(scope.Chains())
      ensures baseLevel == scope.level == old(scope.level) + 1
      ensures AllLayered(base, baseLevel - 1)
    {
      scope.In();
      base, baseLevel := scope.Chains(), scope.level;
    }

    // scope_out. If nothing was left open since Enter, the chains are back.
    method Leave()
      requires Ready() && scope.level >= baseLevel > 0
      requires AllLayered(base, baseLevel - 1)
      modifies this`baseLevel, scope, scope.data
      ensures Ready() && State() == Pop(old(State()))
      ensures baseLevel == old(baseLevel) - 1
      ensures Extends(base, scope.Chains(), old(baseLevel))
      ensures old(scope.level) == old(baseLevel) ==> scope.Chains() == base
    {
      DropExtends(base, scope.Chains(), baseLevel, scope.level);
      scope.Out();
      baseLevel := baseLevel - 1;
      assert Extends(base, scope.Chains(), baseLevel);
    }

    // Goes back to protecting the chains that were protected before.
    ghost method Protect(earlier: seq<Chain<Ref>>, earlierLevel: nat)
      requires Valid()
      requires AllLayered(earlier, earlierLevel) && earlierLevel <= baseLevel
      requires Extends(earlier, base, earlierLevel)
      modifies this`base, this`baseLevel
      ensures Valid() && base == earlier && baseLevel == earlierLevel
    {
      ExtendsTransitive(earlier, base, scope.Chains(), earlierLevel, baseLevel);
      base, baseLevel := earlier, earlierLevel;
    }

    method ExecNode(n: Ref) returns (r: Outcome)
      requires Ready()
      modifies this, scope, scope.data
      ensures Did(r, Eval(n, old(State()), old(executionDepth)))
      decreases 65 - executionDepth, 0, 0
    {
      hide Good, Extends, AllLayered, Disciplined, BoundDisciplined, Grows, Balanced, Call, Size, Lookup, Find;
      r := Ret(Null);
      executionDepth := executionDepth + 1;
      if executionDepth > MAX_EXECUTION_DEPTH {
        cut := true;
        executionDepth := executionDepth - 1;
        return;
      }
      if n.Null? {
        executionDepth := executionDepth - 1;
        return;
      }
      match n.node {
        case Pair(p1, p2) =>
          var first := ExecNode(p1);
          if first.Fault? || first.ref.Null? {
            return Fault;
          }
          if IsMethod(first.ref.node) {
            r := ExecFunction(first.ref, p2);
            if r.Fault? {
              return;
            }
          } else {
            r := Ret(n);
          }
        case Symbol(span) =>
          var entry := scope.LookUp(span);
          if entry.Some? {
            r := ExecNode(entry.value.node);
            if r.Fault? {
              return;
            }
          }
        case Path(_) =>
        case _ =>
          r := Ret(n);
      }
      executionDepth := executionDepth - 1;
    }

    method ExecFunction(fn: Ref, args: Ref) returns (r: Outcome)
      requires Ready()
      modifies this, scope, scope.data
      ensures Did(r, Call(fn, args, old(State()), old(executionDepth)))
      ensures r.Ret? && leaks == old(leaks) && fn.To? && fn.node.Method? ==>
                scope.Chains() == old(scope.Chains())
      decreases 65 - executionDepth, 4, 0
    {
      hide Good, Extends, AllLayered, Disciplined, BoundDisciplined, Grows, Balanced, RunPrim, Eval, BindArgs, Size;
      if fn.Null? || !IsMethod(fn.node) {
        return Ret(Null);
      }
      if fn.node.Builtin? {
        r := RunBuiltin(fn.node.prim, args);
        return;
      }
      ghost var base0, level0 := base, baseLevel;
      Enter();
      var stop := BindArguments(fn.node.params, args);
      if stop.Some? {
        StoppingLeaks(old(State()), Res(stop.value, State()));
        Protect(base0, level0);
        return stop.value;
      }
      r := ExecBody(fn.node.body, old(State()));
      Protect(base0, level0);
    }

    // The end of a function or let: the body, then scope_out. `outer` is the state in
    // which the frame was entered.
    method ExecBody(body: Ref, ghost outer: St) returns (r: Outcome)
      requires Ready() && BoundDisciplined(Push(outer), Bound(State()))
      requires outer.frames != [] && baseLevel == |outer.frames| && AllLayered(base, baseLevel - 1)
      modifies this, scope, scope.data
      ensures Valid()
      ensures var e := Eval(body, old(State()), old(executionDepth));
              Res(r, State()) == if e.out.Fault? then e else Res(e.out, Pop(e.st))
      ensures r.Ret? ==> executionDepth == old(executionDepth)
      ensures baseLevel == old(baseLevel) - (if r.Ret? then 1 else 0)
      ensures base == old(base) && Extends(base, scope.Chains(), old(baseLevel))
      ensures r.Ret? && leaks == outer.leaks ==> scope.Chains() == base
      decreases 65 - executionDepth, 1, 0
    {
      hide Good, Extends, AllLayered, Disciplined, BoundDisciplined, Eval;
      ghost var bound := State();
      r := ExecNode(body);
      BodyBalances(outer, bound, Res(r, State()));
      if r.Ret? {
        Leave();
      }
    }

    // What a binding loop did: it ran to the end, or stopped the call.
    twostate predicate DidBind(new stop: Option<Outcome>, b: Bound)
      reads this, scope, scope.data
    {
      && Valid() && base == old(base) && baseLevel == old(baseLevel)
      && match b
         case Bound(st) => stop == None && State() == st && executionDepth == old(executionDepth)
         case Stopped(r) => stop == Some(r.out) && State() == r.st &&
                            (r.out.Ret? ==> executionDepth == old(executionDepth))
    }

    // The loop of exec_function that maps the arguments to the parameters.
    method BindArguments(params: Ref, args: Ref) returns (stop: Option<Outcome>)
      requires Ready()
      modifies this, scope, scope.data
      ensures DidBind(stop, BindArgs(params, args, old(State()), old(executionDepth)))
      decreases 65 - executionDepth, 2, 0
    {
      hide Good, Extends, AllLayered, Disciplined, BoundDisciplined;
      var paramPtr, argPtr := params, args;
      while paramPtr.To?
        invariant Ready() && executionDepth == old(executionDepth)
        invariant base == old(base) && baseLevel == old(baseLevel)
        invariant BindArgs(params, args, old(State()), executionDepth) ==
                  BindArgs(paramPtr, argPtr, State(), executionDepth)
        decreases Size(paramPtr)
      {
        var field := CarField(paramPtr.node);
        if field.Wild? {
          return Some(Fault);
        }
        if field.ref.Null? || !field.ref.node.Symbol? {
          leaks := leaks + 1;
          return Some(Ret(Null));
        }
        if argPtr.Null? || CarField(argPtr.node).Wild? {
          return Some(Fault);
        }
        var result := ExecNode(CarField(argPtr.node).ref);
        if result.Fault? {
          return Some(Fault);
        }
        AddEntry(field.ref.node.span, result.ref);
        paramPtr := CdrField(paramPtr.node);
        argPtr := CdrField(argPtr.node);
      }
      stop := None;
    }

    method RunBuiltin(p: Prim, args: Ref) returns (r: Outcome)
      requires Ready()
      modifies this, scope, scope.data
      ensures Did(r, RunPrim(p, args, old(State()), old(executionDepth)))
      decreases 65 - executionDepth, 3, 0
    {
      hide Valid, Disciplined, ArithLoop, RunIf, RunEq, RunDefine, RunDisplay, LogicLoop, RunNot, RunCompare, RunLet,
           RunApply, RunMap, RunIntToString, RunCar, RunCdr, RunUnquote, AppendLoop, ListLoop, QuoteTree, MakeRange,
           MakeLambda, Eval, Grows, Balanced;
      match p {
        case Add => r := MethodArith(p, 0, args);
        case Sub => if args.Null? { return Ret(Null); } r := MethodArith(p, 0, args);
        case Mul => r := MethodArith(p, 1, args);
        case Div => if args.Null? { return Ret(Null); } r := MethodArith(p, 0, args);
        case If => r := MethodIf(args);
        case Eq => r := MethodEq(args);
        case Define => r := MethodDefine(args);
        case Display => r := MethodDisplay(args);
        case And => r := MethodLogic(true, args);
        case Or => r := MethodLogic(false, args);
        case Not => r := MethodNot(args);
        case Lambda => r := Ret(MakeLambda(args));
        case Less => r := MethodCompare(p, args);
        case Greater => r := MethodCompare(p, args);
        case LessEq => r := MethodCompare(p, args);
        case GreaterEq => r := MethodCompare(p, args);
        case NotEq => r := MethodCompare(p, args);
        case StringAppend => r := MethodStringAppend(args);
        case Let => r := MethodLet(args);
        case Apply => r := MethodApply(args);
        case Map => r := MethodMap(args);
        case IntToString => r := MethodIntToString(args);
        case List => r := MethodList(args);
        case Car => r := MethodCar(args);
        case Cdr => r := MethodCdr(args);
        case Quote => if !IsPair(args) { return Ret(Null); } r := QuoteTree(args.node.p1);
        case Unquote => r := MethodUnquote(args);
        case Range => r := MakeRange(args);
      }
    }

    // method_add, method_sub, method_mul and method_div.
    method MethodArith(p: Prim, start: u32, args: Ref) returns (r: Outcome)
      requires Ready()
      modifies this, scope, scope.data
      ensures Did(r, ArithLoop(p, args, true, start, old(State()), old(executionDepth)))
      decreases 65 - executionDepth, 2, 0
    {
      hide Good, Extends, AllLayered, Disciplined, BoundDisciplined;
      var n, first, num := args, true, start;
      while n.To?
        invariant Ready() && executionDepth == old(executionDepth)
        invariant base == old(base) && baseLevel == old(baseLevel)
        invariant ArithLoop(p, args, true, start, old(State()), executionDepth) ==
                  ArithLoop(p, n, first, num, State(), executionDepth)
        decreases Size(n)
      {
        if !n.node.Pair? {
          return Ret(Null);
        }
        var tmp := ExecNode(n.node.p1);
        if tmp.Fault? {
          return Fault;
        }
        if tmp.ref.Null? {
          return if p == Add then Ret(Null) else Fault;
        }
        if !tmp.ref.node.Int? {
          return Ret(Null);
        }
        var sum := Combine(p, first, num, tmp.ref.node.num);
        if sum.None? {
          return Fault;
        }
        num, first, n := sum.value, false, n.node.p2;
      }
      r := Ret(Num(num));
    }

    method MethodIf(args: Ref) returns (r: Outcome)
      requires Ready()
      modifies this, scope, scope.data
      ensures Did(r, RunIf(args, old(State()), old(executionDepth)))
      decreases 65 - executionDepth, 2, 0
    {
      hide Good, Extends, AllLayered, Disciplined, BoundDisciplined;
      if !IsPair(args) || args.node.p1.Null? || !IsPair(args.node.p2) || !IsPair(args.node.p2.node.p2) {
        return Ret(Null);
      }
      var ifTrue := args.node.p2.node.p1;
      var ifFalse := args.node.p2.node.p2.node.p1;
      r := ExecNode(args.node.p1);
      if r.Fault? {
        return;
      }
      if !IsInt(r.ref) {
        return Ret(Null);
      }
      r := ExecNode(if r.ref.node.num != 0 then ifTrue else ifFalse);
    }

    method MethodEq(args: Ref) returns (r: Outcome)
      requires Ready()
      modifies this, scope, scope.data
      ensures Did(r, RunEq(args, old(State()), old(executionDepth)))
      decreases 65 - executionDepth, 2, 0
    {
      hide Good, Extends, AllLayered, Disciplined, BoundDisciplined;
      if !IsPair(args) {
        return Ret(Null);
      }
      if args.node.p2.Null? {
        return Fault;
      }
      if !IsPair(args.node.p2) {
        return Ret(Null);
      }
      var p1 := ExecNode(args.node.p1);
      if p1.Fault? || p1.ref.Null? {
        return p1;
      }
      var p2 := ExecNode(args.node.p2.node.p1);
      if p2.Fault? || p2.ref.Null? {
        return p2;
      }
      if !IsInt(p1.ref) || !IsInt(p2.ref) {
        return Ret(Null);
      }
      r := Ret(Truth(p1.ref.node.num == p2.ref.node.num));
    }

    method MethodDefine(args: Ref) returns (r: Outcome)
      requires Ready()
      modifies this, scope, scope.data
      ensures Did(r, RunDefine(args, old(State()), old(executionDepth)))
      decreases 65 - executionDepth, 2, 0
    {
      hide Good, Extends, AllLayered, Disciplined, BoundDisciplined;
      if !IsPair(args) {
        return Ret(Null);
      }
      if args.node.p2.Null? {
        return Fault;
      }
      if !IsPair(args.node.p2) || args.node.p1.Null? {
        return Ret(Null);
      }
      var target := args.node.p1.node;
      var value := args.node.p2.node.p1;
      if target.Symbol? {
        r := ExecNode(value);
        if r.Ret? {
          AddEntry(target.span, r.ref);
        }
      } else if target.Pair? {
        if target.p1.Null? {
          return Fault;
        }
        if target.p1.node.Symbol? {
          AddEntry(target.p1.node.span, To(Method(target.p2, value)));
        }
        r := Ret(Null);
      } else {
        r := Ret(Null);
      }
    }

    method MethodDisplay(args: Ref) returns (r: Outcome)
      requires Ready()
      modifies this, scope, scope.data
      ensures Did(r, RunDisplay(args, old(State()), old(executionDepth)))
      decreases 65 - executionDepth, 2, 0
    {
      hide Good, Extends, AllLayered, Disciplined, BoundDisciplined;
      if !IsPair(args) {
        return Ret(Null);
      }
      var param := ExecNode(args.node.p1);
      r := if param.Fault? || param.ref.Null? then Fault else Ret(Null);
    }

    // method_and (conj) and method_or.
    method MethodLogic(conj: bool, args: Ref) returns (r: Outcome)
      requires Ready()
      modifies this, scope, scope.data
      ensures Did(r, LogicLoop(conj, args, old(State()), old(executionDepth)))
      decreases 65 - executionDepth, 2, 0
    {
      hide Good, Extends, AllLayered, Disciplined, BoundDisciplined;
      var ptr := args;
      while ptr.To?
        invariant Ready() && executionDepth == old(executionDepth)
        invariant base == old(base) && baseLevel == old(baseLevel)
        invariant LogicLoop(conj, args, old(State()), executionDepth) ==
                  LogicLoop(conj, ptr, State(), executionDepth)
        decreases Size(ptr)
      {
        if !ptr.node.Pair? {
          return Ret(Null);
        }
        var arg := ExecNode(ptr.node.p1);
        if arg.Fault? {
          return Fault;
        }
        if !IsInt(arg.ref) {
          return Ret(Null);
        }
        if (arg.ref.node.num != 0) != conj {
          return Ret(Truth(!conj));
        }
        ptr := ptr.node.p2;
      }
      r := Ret(Truth(conj));
    }

    method MethodNot(args: Ref) returns (r: Outcome)
      requires Ready()
      modifies this, scope, scope.data
      ensures Did(r, RunNot(args, old(State()), old(executionDepth)))
      decreases 65 - executionDepth, 2, 0
    {
      hide Good, Extends, AllLayered, Disciplined, BoundDisciplined;
      if !IsPair(args) {
        return Ret(Null);
      }
      var arg := ExecNode(args.node.p1);
      if arg.Fault? {
        return Fault;
      }
      r := Ret(if IsInt(arg.ref) then Truth(arg.ref.node.num == 0) else Null);
    }

    // method_l, method_g, method_le, method_ge and method_ne: both operands are
    // evaluated before either is looked at.
    method MethodCompare(p: Prim, args: Ref) returns (r: Outcome)
      requires Ready()
      modifies this, scope, scope.data
      ensures Did(r, RunCompare(p, args, old(State()), old(executionDepth)))
      decreases 65 - executionDepth, 2, 0
    {
      hide Good, Extends, AllLayered, Disciplined, BoundDisciplined;
      if !IsPair(args) {
        return Ret(Null);
      }
      if args.node.p2.Null? {
        return Fault;
      }
      if !IsPair(args.node.p2) {
        return Ret(Null);
      }
      var node1 := ExecNode(args.node.p1);
      if node1.Fault? {
        return Fault;
      }
      var node2 := ExecNode(args.node.p2.node.p1);
      if node2.Fault? {
        return Fault;
      }
      if !IsInt(node1.ref) || !IsInt(node2.ref) {
        return Ret(Null);
      }
      r := Ret(Truth(Compare(p, node1.ref.node.num, node2.ref.node.num)));
    }

    method MethodStringAppend(args: Ref) returns (r: Outcome)
      requires Ready()
      modifies this, scope, scope.data
      ensures Did(r, RunPrim(StringAppend, args, old(State()), old(executionDepth)))
      decreases 65 - executionDepth, 2, 0
    {
      hide Good, Extends, AllLayered, Disciplined, BoundDisciplined;
      if !IsPair(args) {
        return Ret(Null);
      }
      var buf, argsPtr := "", args;
      while argsPtr.To?
        invariant Ready() && executionDepth == old(executionDepth)
        invariant base == old(base) && baseLevel == old(baseLevel)
        invariant AppendLoop(args, "", old(State()), executionDepth) ==
                  AppendLoop(argsPtr, buf, State(), executionDepth)
        decreases Size(argsPtr)
      {
        if !argsPtr.node.Pair? {
          return Ret(Null);
        }
        var node := ExecNode(argsPtr.node.p1);
        if node.Fault? {
          return Fault;
        }
        if node.ref.Null? || !node.ref.node.Str? {
          return Ret(Null);
        }
        buf := buf + node.ref.node.span;
        argsPtr := argsPtr.node.p2;
      }
      r := Ret(To(Str(buf)));
    }

    method MethodLet(args: Ref) returns (r: Outcome)
      requires Ready()
      modifies this, scope, scope.data
      ensures Did(r, RunLet(args, old(State()), old(executionDepth)))
      ensures r.Ret? && leaks == old(leaks) ==> scope.Chains() == old(scope.Chains())
      decreases 65 - executionDepth, 2, 0
    {
      hide Good, Extends, AllLayered, Disciplined, BoundDisciplined;
      if !IsPair(args) {
        return Ret(Null);
      }
      if args.node.p2.Null? {
        return Fault;
      }
      if !IsPair(args.node.p2) {
        return Ret(Null);
      }
      ghost var base0, level0 := base, baseLevel;
      Enter();
      var stop := BindLet(args.node.p1);
      if stop.Some? {
        StoppingLeaks(old(State()), Res(stop.value, State()));
        Protect(base0, level0);
        return stop.value;
      }
      r := ExecBody(args.node.p2.node.p1, old(State()));
      Protect(base0, level0);
    }

    // The loop of method_let over its bindings.
    method BindLet(list: Ref) returns (stop: Option<Outcome>)
      requires Ready()
      modifies this, scope, scope.data
      ensures DidBind(stop, LetLoop(list, old(State()), old(executionDepth)))
      decreases 65 - executionDepth, 1, 0
    {
      hide Good, Extends, AllLayered, Disciplined, BoundDisciplined;
      var bindings := list;
      while bindings.To?
        invariant Ready() && executionDepth == old(executionDepth)
        invariant base == old(base) && baseLevel == old(baseLevel)
        invariant LetLoop(list, old(State()), executionDepth) == LetLoop(bindings, State(), executionDepth)
        decreases Size(bindings)
      {
        if !bindings.node.Pair? || !IsPair(bindings.node.p1) {
          leaks := leaks + 1;
          return Some(Ret(Null));
        }
        var pair := bindings.node.p1.node;
        if pair.p2.Null? {
          return Some(Fault);
        }
        if !IsPair(pair.p2) {
          leaks := leaks + 1;
          return Some(Ret(Null));
        }
        var value := ExecNode(pair.p2.node.p1);
        var name := KeyName(pair.p1);
        if value.Fault? || name.None? {
          return Some(Fault);
        }
        AddEntry(name.value, value.ref);
        bindings := bindings.node.p2;
      }
      stop := None;
    }

    method MethodApply(args: Ref) returns (r: Outcome)
      requires Ready()
      modifies this, scope, scope.data
      ensures Did(r, RunApply(args, old(State()), old(executionDepth)))
      decreases 65 - executionDepth, 2, 0
    {
      hide Good, Extends, AllLayered, Disciplined, BoundDisciplined;
      if args.Null? || CarField(args.node).Wild? {
        return Fault;
      }
      var fn := ExecNode(CarField(args.node).ref);
      if fn.Fault? {
        return Fault;
      }
      var rest := CdrField(args.node);
      if rest.Null? || CarField(rest.node).Wild? {
        return Fault;
      }
      var list := ExecNode(CarField(rest.node).ref);
      if list.Fault? || list.ref.Null? || CarField(list.ref.node).Wild? {
        return Fault;
      }
      ghost var st0 := State();
      var carry, data := CarField(list.ref.node).ref, CdrField(list.ref.node);
      while data.To?
        invariant Ready() && executionDepth == old(executionDepth)
        invariant base == old(base) && baseLevel == old(baseLevel)
        invariant ApplyLoop(fn.ref, CarField(list.ref.node).ref, CdrField(list.ref.node), st0, executionDepth) ==
                  ApplyLoop(fn.ref, carry, data, State(), executionDepth)
        decreases Size(data)
      {
        if CarField(data.node).Wild? {
          return Fault;
        }
        r := ExecNode(PairList([fn.ref, carry, CarField(data.node).ref]));
        if r.Fault? {
          return;
        }
        carry, data := r.ref, CdrField(data.node);
      }
      r := Ret(carry);
    }

    method MethodMap(args: Ref) returns (r: Outcome)
      requires Ready()
      modifies this, scope, scope.data
      ensures Did(r, RunMap(args, old(State()), old(executionDepth)))
      decreases 65 - executionDepth, 2, 0
    {
      hide Good, Extends, AllLayered, Disciplined, BoundDisciplined;
      if !IsPair(args) {
        return Ret(Null);
      }
      var fn := ExecNode(args.node.p1);
      if fn.Fault? || args.node.p2.Null? {
        return Fault;
      }
      if !IsPair(args.node.p2) {
        return Ret(Null);
      }
      var data := ExecNode(args.node.p2.node.p1);
      if data.Fault? {
        return Fault;
      }
      r := MapOver(fn.ref, data.ref);
    }

    // recursive_map
    method MapOver(fn: Ref, args: Ref) returns (r: Outcome)
      requires Ready()
      modifies this, scope, scope.data
      ensures Did(r, RecursiveMap(fn, args, old(State()), old(executionDepth)))
      decreases 65 - executionDepth, 1, Size(args)
    {
      hide Good, Extends, AllLayered, Disciplined, BoundDisciplined;
      if !IsQuotePair(args) {
        return Ret(Null);
      }
      var first := ExecNode(PairList([fn, args.node.p1]));
      if first.Fault? {
        return Fault;
      }
      var rest := MapOver(fn, args.node.p2);
      if rest.Fault? {
        return Fault;
      }
      r := Ret(To(Pair(first.ref, rest.ref)));
    }

    method MethodIntToString(args: Ref) returns (r: Outcome)
      requires Ready()
      modifies this, scope, scope.data
      ensures Did(r, RunIntToString(args, old(State()), old(executionDepth)))
      decreases 65 - executionDepth, 2, 0
    {
      hide Good, Extends, AllLayered, Disciplined, BoundDisciplined;
      if !IsPair(args) {
        return Ret(Null);
      }
      var value := ExecNode(args.node.p1);
      if value.Fault? {
        return Fault;
      }
      if !IsInt(value.ref) {
        return Ret(Null);
      }
      var text := Decimal.IntToString(value.ref.node.num);
      r := if text.None? then Fault else Ret(To(Str(text.value)));
    }

    method MethodList(args: Ref) returns (r: Outcome)
      requires Ready()
      modifies this, scope, scope.data
      ensures Did(r, RunPrim(List, args, old(State()), old(executionDepth)))
      decreases 65 - executionDepth, 2, 0
    {
      hide Good, Extends, AllLayered, Disciplined, BoundDisciplined;
      if !IsPair(args) {
        return Ret(Null);
      }
      var items: seq<Ref>, ptr := [], args;
      while ptr.To?
        invariant Ready() && executionDepth == old(executionDepth)
        invariant base == old(base) && baseLevel == old(baseLevel)
        invariant ListLoop(args, [], old(State()), executionDepth) ==
                  ListLoop(ptr, items, State(), executionDepth)
        decreases Size(ptr)
      {
        if CarField(ptr.node).Wild? {
          return Fault;
        }
        r := ExecNode(CarField(ptr.node).ref);
        if r.Fault? {
          return;
        }
        items := items + [r.ref];
        ptr := CdrField(ptr.node);
      }
      r := Ret(QuoteList(items));
    }

    method MethodCar(args: Ref) returns (r: Outcome)
      requires Ready()
      modifies this, scope, scope.data
      ensures Did(r, RunCar(args, old(State()), old(executionDepth)))
      decreases 65 - executionDepth, 2, 0
    {
      hide Good, Extends, AllLayered, Disciplined, BoundDisciplined;
      if !IsPair(args) {
        return Ret(Null);
      }
      r := ExecNode(args.node.p1);
      if r.Fault? {
        return;
      }
      if !IsQuotePair(r.ref) {
        return Ret(Null);
      }
      r := ExecNode(r.ref.node.p1);
    }

    method MethodCdr(args: Ref) returns (r: Outcome)
      requires Ready()
      modifies this, scope, scope.data
      ensures Did(r, RunCdr(args, old(State()), old(executionDepth)))
      decreases 65 - executionDepth, 2, 0
    {
      hide Good, Extends, AllLayered, Disciplined, BoundDisciplined;
      if !IsPair(args) {
        return Ret(Null);
      }
      r := ExecNode(args.node.p1);
      if r.Fault? {
        return;
      }
      if !IsQuotePair(r.ref) {
        return Ret(Null);
      }
      r := ExecNode(r.ref.node.p2);
    }

    method MethodUnquote(args: Ref) returns (r: Outcome)
      requires Ready()
      modifies this, scope, scope.data
      ensures Did(r, RunUnquote(args, old(State()), old(executionDepth)))
      decreases 65 - executionDepth, 2, 0
    {
      hide Good, Extends, AllLayered, Disciplined, BoundDisciplined;
      if !IsPair(args) || args.node.p1.Null? {
        return Ret(Null);
      }
      r := ExecNode(args.node.p1);
      if r.Ret? {
        r := UnquoteNode(r.ref);
      }
    }

    // _method_unquote
    method UnquoteNode(arg: Ref) returns (r: Outcome)
      requires Ready()
      modifies this, scope, scope.data
      ensures Did(r, UnquoteTree(arg, old(State()), old(executionDepth)))
      decreases 65 - executionDepth, 1, Size(arg)
    {
      hide Good, Extends, AllLayered, Disciplined, BoundDisciplined;
      if arg.Null? {
        return Ret(Null);
      }
      match arg.node {
        case QuotePair(a, b) =>
          var left := UnquoteNode(a);
          if left.Fault? {
            return Fault;
          }
          var right := UnquoteNode(b);
          if right.Fault? {
            return Fault;
          }
          r := ExecNode(To(Pair(left.ref, right.ref)));
        case QuoteSymbol(s) =>
          r := ExecNode(To(Symbol(s)));
        case _ =>
          r := ExecNode(arg);
      }
    }

    // Evaluating any expression, seen from outside: every bucket chain is new entries
    // of at least the old level in front of the old chain; and if no scope_out was
    // skipped, the level is the old one and all new entries have exactly that level.
    method Evaluate(n: Ref) returns (r: Outcome)
      requires Ready()
      modifies this, scope, scope.data
      ensures Did(r, Eval(n, old(State()), old(executionDepth)))
      ensures Extends(old(scope.Chains()), scope.Chains(), old(scope.level)) && scope.level >= old(scope.level)
      ensures r.Ret? && leaks == old(leaks) ==>
                scope.level == old(scope.level) && NewAtLevel(old(scope.Chains()), scope.Chains(), scope.level)
    {
      ghost var base0, level0 := base, baseLevel;
      assert AllLayered(scope.Chains(), scope.level);
      base, baseLevel := scope.Chains(), scope.level;
      ghost var chains0, st0 := scope.Chains(), State();
      r := ExecNode(n);
      hide Good, AllLayered, Extends;
      DepthOfFrames(st0, Res(r, State()));
      NewEntries(chains0, scope.Chains(), old(scope.level), scope.level);
      Protect(base0, level0);
    }

    lemma NewEntries(old_: seq<Chain<Ref>>, new_: seq<Chain<Ref>>, from: nat, level: nat)
      requires Extends(old_, new_, from) && AllLayered(new_, level)
      ensures from == level ==> NewAtLevel(old_, new_, level)
    {
      forall b, i | 0 <= b < |old_| && 0 <= i < |new_[b]| - |old_[b]|
        ensures from <= new_[b][i].level <= level
      {
        assert Layered(new_[b], level);
      }
    }

    // scope_exec, without the collection at its end. The old chains survive below
    // whatever the program added, and a program that skipped no scope_out ends at
    // the level it began with.
    method ScopeExec(program: Ref) returns (printed: seq<Outcome>)
      requires Valid()
      modifies this, scope, scope.data
      ensures Valid()
      ensures (printed, State()) == RunProgram(program, [], old(State()))
      ensures Extends(old(scope.Chains()), scope.Chains(), old(scope.level))
      ensures scope.level >= old(scope.level)
      ensures Fault !in printed && leaks == old(leaks) ==>
                scope.level == old(scope.level) && NewAtLevel(old(scope.Chains()), scope.Chains(), scope.level)
    {
      base, baseLevel := scope.Chains(), scope.level;
      assert AllLayered(base, baseLevel);
      ghost var st0 := State();
      ghost var chains0 := base;
      printed := [];
      var c := program;
      while c.To?
        invariant Valid() && base == chains0 && baseLevel == old(scope.level)
        invariant RunProgram(program, [], st0) == RunProgram(c, printed, State())
        invariant Fault !in printed
        invariant leaks >= old(leaks)
        invariant |scope.frames| - |st0.frames| == leaks - old(leaks)
        decreases Size(c)
      {
        hide Good, Extends, AllLayered;
        executionDepth := 0;
        if CarField(c.node).Wild? {
          printed := printed + [Fault];
          return;
        }
        var res := ExecNode(CarField(c.node).ref);
        printed := printed + [res];
        if res.Fault? {
          return;
        }
        c := CdrField(c.node);
      }
      NewEntries(chains0, scope.Chains(), baseLevel, scope.level);
    }
  }
}
