// Reference semantics of the Lisp interpreter (usr/lisp/exe.c, usr/lisp/methods.c)
// on a stack of frames, with no table, no loops and no global counter: the depth
// of execution is an argument. Interpreter.dfy refines it.
module Semantics {
  import opened Words
  import opened Ast
  import opened ScopeTable
  import Decimal

  const MAX_EXECUTION_DEPTH := 64

  // `leaks` counts the scope_in calls whose scope_out an early return skipped;
  // `cut` says that the maximum-depth error has been reported.
  datatype St = St(frames: seq<Frame<Ref>>, leaks: nat, cut: bool)

  // Fault: the run dereferenced null or a non-pointer, divided by zero, or
  // overflowed a signed int.
  datatype Outcome = Ret(ref: Ref) | Fault
  datatype Res = Res(out: Outcome, st: St)

  // The outcome of binding parameters in a fresh frame.
  datatype Bound = Bound(st: St) | Stopped(res: Res)

  function Nil(st: St): Res { Res(Ret(Null), st) }
  function Crash(st: St): Res { Res(Fault, st) }
  function Give(r: Ref, st: St): Res { Res(Ret(r), st) }

  function Push(st: St): St { st.(frames := st.frames + [map[]]) }

  function Pop(st: St): St
    requires st.frames != []
  {
    st.(frames := st.frames[..|st.frames| - 1])
  }

  function Leak(st: St): St { st.(leaks := st.leaks + 1) }

  function AddBinding(st: St, name: string, node: Ref): St
    requires st.frames != []
  {
    st.(frames := Bind(st.frames, name, node))
  }

  // ---------- scope discipline ----------

  // Frames below the top are untouched, the top frame keeps its names, and
  // frames are only added.
  ghost predicate Grows(a: St, b: St) {
    && a.frames != []
    && |b.frames| >= |a.frames|
    && b.leaks >= a.leaks
    && (a.cut ==> b.cut)
    && (forall i :: 0 <= i < |a.frames| - 1 ==> b.frames[i] == a.frames[i])
    && a.frames[|a.frames| - 1].Keys <= b.frames[|a.frames| - 1].Keys
  }

  // When evaluation returns, each frame left over is one skipped scope_out.
  ghost predicate Balanced(a: St, b: St, skipped: int) {
    |b.frames| - |a.frames| == b.leaks - a.leaks - skipped
  }

  ghost predicate Disciplined(st: St, r: Res) {
    Grows(st, r.st) && (r.out.Ret? ==> Balanced(st, r.st, 0))
  }

  lemma Stays(st: St)
    requires st.frames != []
    ensures forall out :: Disciplined(st, Res(out, st))
  {
  }

  lemma GoesOn(st: St, r: Res)
    requires Disciplined(st, r) && r.out.Ret?
    ensures r.st.frames != []
    ensures forall out :: Disciplined(st, Res(out, r.st))
    ensures forall next :: Disciplined(r.st, next) ==> Disciplined(st, next)
  {
  }

  ghost predicate BoundDisciplined(st: St, b: Bound) {
    match b
    case Bound(st') => Grows(st, st') && Balanced(st, st', 0)
    case Stopped(r) => Grows(st, r.st) && (r.out.Ret? ==> Balanced(st, r.st, 1))
  }

  lemma PushPop(st: St, inner: St)
    requires st.frames != [] && Grows(Push(st), inner)
    ensures Grows(st, Pop(inner)) && Grows(st, inner)
    ensures Pop(inner).frames[..|st.frames|] == st.frames
  {
    assert Push(st).frames[|st.frames| - 1] == st.frames[|st.frames| - 1];
  }

  lemma BindStep(st: St, mid: St, name: string, node: Ref, b: Bound)
    requires Grows(st, mid) && Balanced(st, mid, 0)
    requires BoundDisciplined(AddBinding(mid, name, node), b)
    ensures BoundDisciplined(st, b)
  {
    assert Grows(st, AddBinding(mid, name, node));
  }

  // ---------- evaluation (exe.c) ----------

  function Eval(n: Ref, st: St, d: nat): (r: Res)
    requires d <= MAX_EXECUTION_DEPTH && st.frames != []
    ensures Disciplined(st, r)
    decreases 65 - d, 0, 0
  {
    if d + 1 > MAX_EXECUTION_DEPTH then Nil(st.(cut := true))
    else if n.Null? then Nil(st)
    else match n.node
      case Pair(p1, p2) =>
        var f := Eval(p1, st, d + 1);
        if f.out.Fault? then f
        else if f.out.ref.Null? then Crash(f.st)
        else if IsMethod(f.out.ref.node) then Call(f.out.ref, p2, f.st, d + 1)
        else Give(n, f.st)
      case Symbol(span) =>
        (match Lookup(st.frames, span)
         case None => Nil(st)
         case Some(node) => Eval(node, st, d + 1))
      case Path(_) => Nil(st)
      case _ => Give(n, st)
  }

  function Call(fn: Ref, args: Ref, st: St, d: nat): (r: Res)
    requires d <= MAX_EXECUTION_DEPTH && st.frames != []
    ensures Disciplined(st, r)
    decreases 65 - d, 4, 0
  {
    if fn.Null? || !IsMethod(fn.node) then Nil(st)
    else if fn.node.Builtin? then RunPrim(fn.node.prim, args, st, d)
    else
      match BindArgs(fn.node.params, args, Push(st), d)
      case Stopped(r) => r
      case Bound(st1) =>
        var r := Eval(fn.node.body, st1, d);
        PushPop(st, r.st);
        if r.out.Fault? then r else Res(r.out, Pop(r.st))
  }

  function BindArgs(params: Ref, args: Ref, st: St, d: nat): (b: Bound)
    requires d <= MAX_EXECUTION_DEPTH && st.frames != []
    ensures BoundDisciplined(st, b)
    decreases 65 - d, 1, Size(params)
  {
    if params.Null? then Bound(st)
    else if CarField(params.node).Wild? then Stopped(Crash(st))
    else
      var param := CarField(params.node).ref;
      if param.Null? || !param.node.Symbol? then Stopped(Nil(Leak(st)))
      else if args.Null? || CarField(args.node).Wild? then Stopped(Crash(st))
      else
        var r := Eval(CarField(args.node).ref, st, d);
        if r.out.Fault? then Stopped(r)
        else
          var st1 := AddBinding(r.st, param.node.span, r.out.ref);
          var b := BindArgs(CdrField(params.node), CdrField(args.node), st1, d);
          BindStep(st, r.st, param.node.span, r.out.ref, b);
          b
  }

  // ---------- the builtin methods (methods.c) ----------

  function RunPrim(p: Prim, args: Ref, st: St, d: nat): (r: Res)
    requires d <= MAX_EXECUTION_DEPTH && st.frames != []
    ensures Disciplined(st, r)
    decreases 65 - d, 3, 0
  {
    match p
    case Add => ArithLoop(Add, args, true, 0, st, d)
    case Sub => if args.Null? then Nil(st) else ArithLoop(Sub, args, true, 0, st, d)
    case Mul => ArithLoop(Mul, args, true, 1, st, d)
    case Div => if args.Null? then Nil(st) else ArithLoop(Div, args, true, 0, st, d)
    case If => RunIf(args, st, d)
    case Eq => RunEq(args, st, d)
    case Define => RunDefine(args, st, d)
    case Display => RunDisplay(args, st, d)
    case And => LogicLoop(true, args, st, d)
    case Or => LogicLoop(false, args, st, d)
    case Not => RunNot(args, st, d)
    case Lambda => Give(MakeLambda(args), st)
    case Less => RunCompare(p, args, st, d)
    case Greater => RunCompare(p, args, st, d)
    case LessEq => RunCompare(p, args, st, d)
    case GreaterEq => RunCompare(p, args, st, d)
    case NotEq => RunCompare(p, args, st, d)
    case StringAppend => if IsPair(args) then AppendLoop(args, "", st, d) else Nil(st)
    case Let => RunLet(args, st, d)
    case Apply => RunApply(args, st, d)
    case Map => RunMap(args, st, d)
    case IntToString => RunIntToString(args, st, d)
    case List => if IsPair(args) then ListLoop(args, [], st, d) else Nil(st)
    case Car => RunCar(args, st, d)
    case Cdr => RunCdr(args, st, d)
    case Quote => Res(if IsPair(args) then QuoteTree(args.node.p1) else Ret(Null), st)
    case Unquote => RunUnquote(args, st, d)
    case Range => Res(MakeRange(args), st)
  }

  // One step of +, -, * or / on 32-bit words; the first operand replaces the
  // accumulator of - and /.
  function Combine(p: Prim, first: bool, acc: u32, x: u32): Option<u32> {
    match p
    case Add => Some((acc + x) % TWO32)
    case Sub => Some(if first then x else (acc - x) % TWO32)
    case Mul => Some(acc * x % TWO32)
    case _ => if first then Some(x) else if x == 0 then None else Some(Quotient(acc, x))
  }

  function Quotient(a: u32, b: u32): u32
    requires b != 0
  {
    QuotientFits(a, b);
    a / b
  }

  lemma QuotientFits(a: nat, b: nat)
    requires b != 0
    ensures 0 <= a / b <= a
  {
    var q := a / b;
    assert a == b * q + a % b;
    if q > 0 {
      Decimal.Grows(q, b);
      assert q * b == b * q;
    }
  }

  function ArithLoop(p: Prim, args: Ref, first: bool, acc: u32, st: St, d: nat): (r: Res)
    requires d <= MAX_EXECUTION_DEPTH && st.frames != []
    ensures Disciplined(st, r)
    decreases 65 - d, 1, Size(args)
  {
    if args.Null? then Give(Num(acc), st)
    else if !args.node.Pair? then Nil(st)
    else
      var r := Eval(args.node.p1, st, d);
      if r.out.Fault? then r
      else if r.out.ref.Null? then (if p == Add then Nil(r.st) else Crash(r.st))
      else if !r.out.ref.node.Int? then Nil(r.st)
      else match Combine(p, first, acc, r.out.ref.node.num)
        case None => Crash(r.st)
        case Some(v) => ArithLoop(p, args.node.p2, false, v, r.st, d)
  }

  function RunIf(args: Ref, st: St, d: nat): (r: Res)
    requires d <= MAX_EXECUTION_DEPTH && st.frames != []
    ensures Disciplined(st, r)
    decreases 65 - d, 2, 0
  {
    if !IsPair(args) || args.node.p1.Null? || !IsPair(args.node.p2) || !IsPair(args.node.p2.node.p2) then Nil(st)
    else
      var r := Eval(args.node.p1, st, d);
      if r.out.Fault? then r
      else if !IsInt(r.out.ref) then Nil(r.st)
      else
        var branches := args.node.p2.node;
        Eval(if r.out.ref.node.num != 0 then branches.p1 else branches.p2.node.p1, r.st, d)
  }

  function RunEq(args: Ref, st: St, d: nat): (r: Res)
    requires d <= MAX_EXECUTION_DEPTH && st.frames != []
    ensures Disciplined(st, r)
    decreases 65 - d, 2, 0
  {
    if !IsPair(args) then Nil(st)
    else if args.node.p2.Null? then Crash(st)
    else if !IsPair(args.node.p2) then Nil(st)
    else
      var a := Eval(args.node.p1, st, d);
      if a.out.Fault? then a
      else if a.out.ref.Null? then Nil(a.st)
      else
        var b := Eval(args.node.p2.node.p1, a.st, d);
        if b.out.Fault? then b
        else if !IsInt(a.out.ref) || !IsInt(b.out.ref) then Nil(b.st)
        else Give(Truth(a.out.ref.node.num == b.out.ref.node.num), b.st)
  }

  function RunDefine(args: Ref, st: St, d: nat): (r: Res)
    requires d <= MAX_EXECUTION_DEPTH && st.frames != []
    ensures Disciplined(st, r)
    decreases 65 - d, 2, 0
  {
    if !IsPair(args) then Nil(st)
    else if args.node.p2.Null? then Crash(st)
    else if !IsPair(args.node.p2) || args.node.p1.Null? then Nil(st)
    else
      var target := args.node.p1.node;
      var value := args.node.p2.node.p1;
      if target.Symbol? then
        var r := Eval(value, st, d);
        if r.out.Fault? then r else Give(r.out.ref, AddBinding(r.st, target.span, r.out.ref))
      else if target.Pair? then
        if target.p1.Null? then Crash(st)
        else if !target.p1.node.Symbol? then Nil(st)
        else Nil(AddBinding(st, target.p1.node.span, To(Method(target.p2, value))))
      else Nil(st)
  }

  function RunDisplay(args: Ref, st: St, d: nat): (r: Res)
    requires d <= MAX_EXECUTION_DEPTH && st.frames != []
    ensures Disciplined(st, r)
    decreases 65 - d, 2, 0
  {
    if !IsPair(args) then Nil(st)
    else
      var r := Eval(args.node.p1, st, d);
      if r.out.Fault? then r
      else if r.out.ref.Null? then Crash(r.st)
      else Nil(r.st)
  }

  // `and` (conj) stops at the first 0, `or` at the first non-zero.
  function LogicLoop(conj: bool, args: Ref, st: St, d: nat): (r: Res)
    requires d <= MAX_EXECUTION_DEPTH && st.frames != []
    ensures Disciplined(st, r)
    decreases 65 - d, 1, Size(args)
  {
    if args.Null? then Give(Truth(conj), st)
    else if !args.node.Pair? then Nil(st)
    else
      var r := Eval(args.node.p1, st, d);
      if r.out.Fault? then r
      else if !IsInt(r.out.ref) then Nil(r.st)
      else if (r.out.ref.node.num != 0) != conj then Give(Truth(!conj), r.st)
      else LogicLoop(conj, args.node.p2, r.st, d)
  }

  function RunNot(args: Ref, st: St, d: nat): (r: Res)
    requires d <= MAX_EXECUTION_DEPTH && st.frames != []
    ensures Disciplined(st, r)
    decreases 65 - d, 2, 0
  {
    if !IsPair(args) then Nil(st)
    else
      var r := Eval(args.node.p1, st, d);
      if r.out.Fault? then r
      else if !IsInt(r.out.ref) then Nil(r.st)
      else Give(Truth(r.out.ref.node.num == 0), r.st)
  }

  function MakeLambda(args: Ref): Ref {
    if IsPair(args) && IsPair(args.node.p1) && IsPair(args.node.p2)
    then To(Method(args.node.p1, args.node.p2.node.p1))
    else Null
  }

  function Compare(p: Prim, a: u32, b: u32): bool {
    match p
    case Less => a < b
    case Greater => a > b
    case LessEq => a <= b
    case GreaterEq => a >= b
    case _ => a != b
  }

  function RunCompare(p: Prim, args: Ref, st: St, d: nat): (r: Res)
    requires d <= MAX_EXECUTION_DEPTH && st.frames != []
    ensures Disciplined(st, r)
    decreases 65 - d, 2, 0
  {
    if !IsPair(args) then Nil(st)
    else if args.node.p2.Null? then Crash(st)
    else if !IsPair(args.node.p2) then Nil(st)
    else
      var a := Eval(args.node.p1, st, d);
      if a.out.Fault? then a
      else
        var b := Eval(args.node.p2.node.p1, a.st, d);
        if b.out.Fault? then b
        else if !IsInt(a.out.ref) || !IsInt(b.out.ref) then Nil(b.st)
        else Give(Truth(Compare(p, a.out.ref.node.num, b.out.ref.node.num)), b.st)
  }

  function AppendLoop(args: Ref, buf: string, st: St, d: nat): (r: Res)
    requires d <= MAX_EXECUTION_DEPTH && st.frames != []
    ensures Disciplined(st, r)
    decreases 65 - d, 1, Size(args)
  {
    if args.Null? then Give(To(Str(buf)), st)
    else if !args.node.Pair? then Nil(st)
    else
      var r := Eval(args.node.p1, st, d);
      if r.out.Fault? then r
      else if r.out.ref.Null? || !r.out.ref.node.Str? then Nil(r.st)
      else AppendLoop(args.node.p2, buf + r.out.ref.node.span, r.st, d)
  }

  function RunLet(args: Ref, st: St, d: nat): (r: Res)
    requires d <= MAX_EXECUTION_DEPTH && st.frames != []
    ensures Disciplined(st, r)
    decreases 65 - d, 2, 0
  {
    if !IsPair(args) then Nil(st)
    else if args.node.p2.Null? then Crash(st)
    else if !IsPair(args.node.p2) then Nil(st)
    else
      match LetLoop(args.node.p1, Push(st), d)
      case Stopped(r) => PushPop(st, r.st); r
      case Bound(st1) =>
        var r := Eval(args.node.p2.node.p1, st1, d);
        PushPop(st, r.st);
        if r.out.Fault? then r else Res(r.out, Pop(r.st))
  }

  // The name a binding's key points at, if it points at text.
  function KeyName(key: Ref): Option<string> {
    if key.Null? then None
    else match key.node
      case Symbol(s) => Some(s)
      case QuoteSymbol(s) => Some(s)
      case Path(s) => Some(s)
      case Str(s) => Some(s)
      case _ => None
  }

  function LetLoop(bindings: Ref, st: St, d: nat): (b: Bound)
    requires d <= MAX_EXECUTION_DEPTH && st.frames != []
    ensures BoundDisciplined(st, b)
    decreases 65 - d, 1, Size(bindings)
  {
    if bindings.Null? then Bound(st)
    else if !bindings.node.Pair? || !IsPair(bindings.node.p1) then Stopped(Nil(Leak(st)))
    else
      var pair := bindings.node.p1.node;
      if pair.p2.Null? then Stopped(Crash(st))
      else if !IsPair(pair.p2) then Stopped(Nil(Leak(st)))
      else
        var r := Eval(pair.p2.node.p1, st, d);
        if r.out.Fault? then Stopped(r)
        else match KeyName(pair.p1)
          case None => Stopped(Crash(r.st))
          case Some(name) =>
            var b := LetLoop(bindings.node.p2, AddBinding(r.st, name, r.out.ref), d);
            BindStep(st, r.st, name, r.out.ref, b);
            b
  }

  function RunApply(args: Ref, st: St, d: nat): (r: Res)
    requires d <= MAX_EXECUTION_DEPTH && st.frames != []
    ensures Disciplined(st, r)
    decreases 65 - d, 2, 0
  {
    hide Disciplined;
    Stays(st);
    if args.Null? || CarField(args.node).Wild? then Crash(st)
    else
      var m := Eval(CarField(args.node).ref, st, d);
      if m.out.Fault? then m
      else
        GoesOn(st, m);
        var rest := CdrField(args.node);
        if rest.Null? || CarField(rest.node).Wild? then Crash(m.st)
        else
          var data := Eval(CarField(rest.node).ref, m.st, d);
          if data.out.Fault? then data
          else
            GoesOn(m.st, data);
            if data.out.ref.Null? || CarField(data.out.ref.node).Wild? then Crash(data.st)
            else ApplyLoop(m.out.ref, CarField(data.out.ref.node).ref, CdrField(data.out.ref.node), data.st, d)
  }

  // A left fold: (method carry element) for each further element.
  function ApplyLoop(fn: Ref, carry: Ref, data: Ref, st: St, d: nat): (r: Res)
    requires d <= MAX_EXECUTION_DEPTH && st.frames != []
    ensures Disciplined(st, r)
    decreases 65 - d, 1, Size(data)
  {
    if data.Null? then Give(carry, st)
    else if CarField(data.node).Wild? then Crash(st)
    else
      var r := Eval(PairList([fn, carry, CarField(data.node).ref]), st, d);
      if r.out.Fault? then r else ApplyLoop(fn, r.out.ref, CdrField(data.node), r.st, d)
  }

  function RunMap(args: Ref, st: St, d: nat): (r: Res)
    requires d <= MAX_EXECUTION_DEPTH && st.frames != []
    ensures Disciplined(st, r)
    decreases 65 - d, 2, 0
  {
    hide Disciplined;
    Stays(st);
    if !IsPair(args) then Nil(st)
    else
      var m := Eval(args.node.p1, st, d);
      if m.out.Fault? then m
      else
        GoesOn(st, m);
        if args.node.p2.Null? then Crash(m.st)
        else if !IsPair(args.node.p2) then Nil(m.st)
        else
          var data := Eval(args.node.p2.node.p1, m.st, d);
          if data.out.Fault? then data
          else
            GoesOn(m.st, data);
            RecursiveMap(m.out.ref, data.out.ref, data.st, d)
  }

  function RecursiveMap(fn: Ref, args: Ref, st: St, d: nat): (r: Res)
    requires d <= MAX_EXECUTION_DEPTH && st.frames != []
    ensures Disciplined(st, r)
    decreases 65 - d, 1, Size(args)
  {
    hide Disciplined;
    Stays(st);
    if !IsQuotePair(args) then Nil(st)
    else
      var first := Eval(PairList([fn, args.node.p1]), st, d);
      if first.out.Fault? then first
      else
        GoesOn(st, first);
        var rest := RecursiveMap(fn, args.node.p2, first.st, d);
        if rest.out.Fault? then rest
        else
          GoesOn(first.st, rest);
          Give(To(Pair(first.out.ref, rest.out.ref)), rest.st)
  }

  function RunIntToString(args: Ref, st: St, d: nat): (r: Res)
    requires d <= MAX_EXECUTION_DEPTH && st.frames != []
    ensures Disciplined(st, r)
    decreases 65 - d, 2, 0
  {
    if !IsPair(args) then Nil(st)
    else
      var r := Eval(args.node.p1, st, d);
      if r.out.Fault? then r
      else if !IsInt(r.out.ref) then Nil(r.st)
      else if r.out.ref.node.num > Decimal.MAX_PRINTABLE then Crash(r.st)
      else Give(To(Str(Decimal.Render(r.out.ref.node.num))), r.st)
  }

  // Evaluates every element, whatever the type of the spine node that holds it.
  function ListLoop(args: Ref, done: seq<Ref>, st: St, d: nat): (r: Res)
    requires d <= MAX_EXECUTION_DEPTH && st.frames != []
    ensures Disciplined(st, r)
    decreases 65 - d, 1, Size(args)
  {
    if args.Null? then Give(QuoteList(done), st)
    else if CarField(args.node).Wild? then Crash(st)
    else
      var r := Eval(CarField(args.node).ref, st, d);
      if r.out.Fault? then r else ListLoop(CdrField(args.node), done + [r.out.ref], r.st, d)
  }

  function RunCar(args: Ref, st: St, d: nat): (r: Res)
    requires d <= MAX_EXECUTION_DEPTH && st.frames != []
    ensures Disciplined(st, r)
    decreases 65 - d, 2, 0
  {
    if !IsPair(args) then Nil(st)
    else
      var r := Eval(args.node.p1, st, d);
      if r.out.Fault? then r
      else if !IsQuotePair(r.out.ref) then Nil(r.st)
      else Eval(r.out.ref.node.p1, r.st, d)
  }

  function RunCdr(args: Ref, st: St, d: nat): (r: Res)
    requires d <= MAX_EXECUTION_DEPTH && st.frames != []
    ensures Disciplined(st, r)
    decreases 65 - d, 2, 0
  {
    if !IsPair(args) then Nil(st)
    else
      var r := Eval(args.node.p1, st, d);
      if r.out.Fault? then r
      else if !IsQuotePair(r.out.ref) then Nil(r.st)
      else Eval(r.out.ref.node.p2, r.st, d)
  }

  // _method_quote: it dereferences its argument before looking at it.
  function QuoteTree(arg: Ref): Outcome
    decreases Size(arg)
  {
    if arg.Null? then Fault
    else match arg.node
      case Pair(a, b) =>
        var l := QuoteTree(a);
        if l.Fault? then Fault
        else
          var r := QuoteTree(b);
          if r.Fault? then Fault else Ret(To(QuotePair(l.ref, r.ref)))
      case Symbol(s) => Ret(To(QuoteSymbol(s)))
      case _ => Ret(arg)
  }

  function RunUnquote(args: Ref, st: St, d: nat): (r: Res)
    requires d <= MAX_EXECUTION_DEPTH && st.frames != []
    ensures Disciplined(st, r)
    decreases 65 - d, 2, 0
  {
    if !IsPair(args) || args.node.p1.Null? then Nil(st)
    else
      var r := Eval(args.node.p1, st, d);
      if r.out.Fault? then r else UnquoteTree(r.out.ref, r.st, d)
  }

  function UnquoteTree(arg: Ref, st: St, d: nat): (r: Res)
    requires d <= MAX_EXECUTION_DEPTH && st.frames != []
    ensures Disciplined(st, r)
    decreases 65 - d, 1, Size(arg)
  {
    hide Disciplined;
    Stays(st);
    if arg.Null? then Nil(st)
    else match arg.node
      case QuotePair(a, b) =>
        var l := UnquoteTree(a, st, d);
        if l.out.Fault? then l
        else
          GoesOn(st, l);
          var r := UnquoteTree(b, l.st, d);
          if r.out.Fault? then r
          else
            GoesOn(l.st, r);
            Eval(To(Pair(l.out.ref, r.out.ref)), r.st, d)
      case QuoteSymbol(s) => Eval(To(Symbol(s)), st, d)
      case _ => Eval(arg, st, d)
  }

  // A 32-bit word read as a signed int.
  function Signed(w: u32): int {
    if w < 0x8000_0000 then w else w - TWO32
  }

  function RangeItems(low: int, high: int): (r: seq<Ref>)
    requires -0x8000_0000 <= low <= high <= 0x7FFF_FFFF
    ensures |r| == high - low
    decreases high - low
  {
    if low == high then [] else [Num(low % TWO32)] + RangeItems(low + 1, high)
  }

  // Counting up from begin > end runs past the largest int.
  function MakeRange(args: Ref): Outcome {
    if !IsPair(args) || !IsInt(args.node.p1) || !IsPair(args.node.p2) || !IsInt(args.node.p2.node.p1) then Ret(Null)
    else
      var begin := Signed(args.node.p1.node.num);
      var end := Signed(args.node.p2.node.p1.node.num);
      if begin <= end then Ret(QuoteList(RangeItems(begin, end))) else Fault
  }

  // scope_exec: evaluates each expression of a program at depth zero, until one
  // faults; the outcomes, in order, follow those already printed.
  function RunProgram(c: Ref, printed: seq<Outcome>, st: St): (seq<Outcome>, St)
    requires st.frames != []
    decreases Size(c)
  {
    if c.Null? then (printed, st)
    else if CarField(c.node).Wild? then (printed + [Fault], st)
    else
      var r := Eval(CarField(c.node).ref, st, 0);
      if r.out.Fault? then (printed + [Fault], r.st)
      else RunProgram(CdrField(c.node), printed + [r.out], r.st)
  }
}
