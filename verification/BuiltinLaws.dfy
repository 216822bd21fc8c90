// What the builtin methods compute, in terms of the values of their arguments and of
// ordinary arithmetic.
module BuiltinLaws {
  import opened Words

  import opened Ast
  import opened ScopeTable
  import opened Semantics
  import opened FunctionLaws
  import Decimal

  // The expressions, or the first of them, are evaluated one after the other, from the
  // first state of the trace on, to the values.
  ghost predicate InOrder(es: seq<Ref>, vs: seq<Ref>, trace: seq<St>, d: nat)
    requires d <= MAX_EXECUTION_DEPTH
  {
    && |vs| <= |es| && |trace| == |vs| + 1
    && (forall i :: 0 <= i < |trace| ==> trace[i].frames != [])
    && (forall i :: 0 <= i < |vs| ==> Step(es, vs, trace, d, i))
  }

  ghost predicate Step(es: seq<Ref>, vs: seq<Ref>, trace: seq<St>, d: nat, i: nat)
    requires d <= MAX_EXECUTION_DEPTH && |trace| == |vs| + 1 && i < |vs| <= |es|
    requires trace[i].frames != []
  {
    Eval(es[i], trace[i], d) == Give(vs[i], trace[i + 1])
  }

  // ---------- arithmetic ----------

  function Sum(ns: seq<u32>): nat {
    if ns == [] then 0 else ns[0] + Sum(ns[1..])
  }

  function Product(ns: seq<u32>): nat {
    if ns == [] then 1 else ns[0] * Product(ns[1..])
  }

  lemma {:induction false} TailAt(ns: seq<u32>, i: nat)
    requires i <= |ns|
    ensures Sum(ns[i..]) == if i == |ns| then 0 else ns[i] + Sum(ns[i + 1..])
    ensures Product(ns[i..]) == if i == |ns| then 1 else ns[i] * Product(ns[i + 1..])
  {
    if i < |ns| {
      assert ns[i..][1..] == ns[i + 1..];
    }
  }

  // One turn of the loop over the operands, and its end.
  lemma {:induction false} ArithStep(p: Prim, es: seq<Ref>, ns: seq<u32>, trace: seq<St>, d: nat, i: nat, first: bool,
                                     acc: u32)
    requires d <= MAX_EXECUTION_DEPTH && InOrder(es, Numbers(ns), trace, d) && i <= |ns|
    ensures i == |es| ==> ArithLoop(p, PairList(es[i..]), first, acc, trace[i], d) == Give(Num(acc), trace[i])
    ensures i < |ns| ==>
              var c := Combine(p, first, acc, ns[i]);
              ArithLoop(p, PairList(es[i..]), first, acc, trace[i], d) ==
              if c.None? then Crash(trace[i + 1])
              else ArithLoop(p, PairList(es[i + 1..]), false, c.value, trace[i + 1], d)
  {
    hide Eval, Combine, Quotient;
    ListAt(es, i);
    if i < |ns| {
      assert Step(es, Numbers(ns), trace, d, i);
    }
  }

  lemma {:induction false} WrapSum(a: int, b: int)
    ensures (a % TWO32 + b) % TWO32 == (a + b) % TWO32
  {
    SameRemainder(a + b, a % TWO32 + b, a / TWO32);
  }

  lemma {:induction false} SumOf(es: seq<Ref>, ns: seq<u32>, trace: seq<St>, d: nat, i: nat, first: bool, acc: u32)
    requires d <= MAX_EXECUTION_DEPTH && InOrder(es, Numbers(ns), trace, d) && i <= |es| == |ns|
    ensures ArithLoop(Add, PairList(es[i..]), first, acc, trace[i], d) ==
            Give(Num((acc + Sum(ns[i..])) % TWO32), trace[|es|])
    decreases |es| - i
  {
    hide Eval, ArithLoop, Sum, PairList, Product, Step;
    ArithStep(Add, es, ns, trace, d, i, first, acc);
    TailAt(ns, i);
    if i < |es| {
      SumOf(es, ns, trace, d, i + 1, false, (acc + ns[i]) % TWO32);
      WrapSum(acc + ns[i], Sum(ns[i + 1..]));
    }
  }

  lemma {:induction false} DifferenceOf(es: seq<Ref>, ns: seq<u32>, trace: seq<St>, d: nat, i: nat, acc: u32)
    requires d <= MAX_EXECUTION_DEPTH && InOrder(es, Numbers(ns), trace, d) && i <= |es| == |ns|
    ensures ArithLoop(Sub, PairList(es[i..]), false, acc, trace[i], d) ==
            Give(Num((acc - Sum(ns[i..])) % TWO32), trace[|es|])
    decreases |es| - i
  {
    hide Eval, ArithLoop, Sum, PairList, Product, Step;
    ArithStep(Sub, es, ns, trace, d, i, false, acc);
    TailAt(ns, i);
    if i < |es| {
      DifferenceOf(es, ns, trace, d, i + 1, (acc - ns[i]) % TWO32);
      WrapSum(acc - ns[i], 0 - Sum(ns[i + 1..]));
    }
  }

  lemma {:induction false} ProductOf(es: seq<Ref>, ns: seq<u32>, trace: seq<St>, d: nat, i: nat, first: bool, acc: u32)
    requires d <= MAX_EXECUTION_DEPTH && InOrder(es, Numbers(ns), trace, d) && i <= |es| == |ns|
    ensures ArithLoop(Mul, PairList(es[i..]), first, acc, trace[i], d) ==
            Give(Num(acc * Product(ns[i..]) % TWO32), trace[|es|])
    decreases |es| - i
  {
    hide Eval, ArithLoop, Sum, PairList, Product, Step;
    ArithStep(Mul, es, ns, trace, d, i, first, acc);
    TailAt(ns, i);
    if i < |es| {
      ProductOf(es, ns, trace, d, i + 1, false, acc * ns[i] % TWO32);
      WrapProduct(acc, ns[i], Product(ns[i + 1..]));
    }
  }

  lemma {:induction false} WrapProduct(a: nat, b: nat, c: nat)
    ensures a * b % TWO32 * c % TWO32 == a * (b * c) % TWO32
  {
    PushDigit(a * b, c, 0);
    Decimal.Regroup(a, b, c);
  }

  lemma {:induction false} QuotientOf(es: seq<Ref>, ns: seq<u32>, trace: seq<St>, d: nat, i: nat, acc: u32)
    requires d <= MAX_EXECUTION_DEPTH && InOrder(es, Numbers(ns), trace, d) && i <= |es| == |ns|
    ensures var r := ArithLoop(Div, PairList(es[i..]), false, acc, trace[i], d);
            if 0 in ns[i..] then r.out.Fault?
            else Product(ns[i..]) > 0 && r == Give(Num(acc / Product(ns[i..])), trace[|es|])
    decreases |es| - i
  {
    hide Eval, ArithLoop, Sum, PairList, Product, Step;
    ArithStep(Div, es, ns, trace, d, i, false, acc);
    TailAt(ns, i);
    if i < |es| {
      assert ns[i..] == [ns[i]] + ns[i + 1..];
      if ns[i] != 0 {
        QuotientOf(es, ns, trace, d, i + 1, Quotient(acc, ns[i]));
        if 0 !in ns[i + 1..] {
          Decimal.Divides(acc, ns[i], Product(ns[i + 1..]));
        }
      }
    }
  }

  lemma {:induction false} ArithIsLoop(args: Ref, st: St, d: nat)
    requires d <= MAX_EXECUTION_DEPTH && st.frames != []
    ensures RunPrim(Add, args, st, d) == ArithLoop(Add, args, true, 0, st, d)
    ensures RunPrim(Mul, args, st, d) == ArithLoop(Mul, args, true, 1, st, d)
    ensures args.To? ==> RunPrim(Sub, args, st, d) == ArithLoop(Sub, args, true, 0, st, d)
    ensures args.To? ==> RunPrim(Div, args, st, d) == ArithLoop(Div, args, true, 0, st, d)
  {
    hide ArithLoop, Disciplined;
  }

  // + and * on operands that evaluate to numbers are arithmetic on 32-bit words.
  lemma {:induction false} SumAndProductLaw(es: seq<Ref>, ns: seq<u32>, trace: seq<St>, d: nat)
    requires d <= MAX_EXECUTION_DEPTH && InOrder(es, Numbers(ns), trace, d) && |es| == |ns|
    ensures RunPrim(Add, PairList(es), trace[0], d) == Give(Num(Sum(ns) % TWO32), trace[|es|])
    ensures RunPrim(Mul, PairList(es), trace[0], d) == Give(Num(Product(ns) % TWO32), trace[|es|])
  {
    hide Eval, ArithLoop, Sum, Product, RunPrim, PairList, Step;
    assert es[0..] == es && ns[0..] == ns;
    ArithIsLoop(PairList(es), trace[0], d);
    SumOf(es, ns, trace, d, 0, true, 0);
    ProductOf(es, ns, trace, d, 0, true, 1);
  }

  // So are - and /: what follows the first operand is taken from it, or divides it,
  // and dividing by zero faults.
  lemma {:induction false} DifferenceAndQuotientLaw(es: seq<Ref>, ns: seq<u32>, trace: seq<St>, d: nat)
    requires d <= MAX_EXECUTION_DEPTH && es != [] && InOrder(es, Numbers(ns), trace, d) && |es| == |ns|
    ensures RunPrim(Sub, PairList(es), trace[0], d) == Give(Num((ns[0] - Sum(ns[1..])) % TWO32), trace[|es|])
    ensures var r := RunPrim(Div, PairList(es), trace[0], d);
            if 0 in ns[1..] then r.out.Fault?
            else Product(ns[1..]) > 0 && r == Give(Num(ns[0] / Product(ns[1..])), trace[|es|])
  {
    hide Eval, ArithLoop, Sum, Product, RunPrim, Step;
    assert es[0..] == es && ns[0..] == ns;
    ArithIsLoop(PairList(es), trace[0], d);
    ArithStep(Sub, es, ns, trace, d, 0, true, 0);
    ArithStep(Div, es, ns, trace, d, 0, true, 0);
    DifferenceOf(es, ns, trace, d, 1, ns[0]);
    QuotientOf(es, ns, trace, d, 1, ns[0]);
  }

  // What is no number stops +, -, * and /: the result is null, but for a null operand
  // of -, * and /, which is dereferenced.
  lemma {:induction false} Misfit(p: Prim, es: seq<Ref>, ns: seq<u32>, v: Ref, trace: seq<St>, d: nat, end: St,
                                  i: nat, first: bool, acc: u32)
    requires d <= MAX_EXECUTION_DEPTH && InOrder(es, Numbers(ns), trace, d) && i <= |ns| < |es| && !IsInt(v)
    requires Eval(es[|ns|], trace[|ns|], d) == Give(v, end) && (p == Add || p == Sub || p == Mul)
    ensures ArithLoop(p, PairList(es[i..]), first, acc, trace[i], d) ==
            if v.Null? && p != Add then Crash(end) else Nil(end)
    decreases |ns| - i
  {
    hide Eval, PairList, Step;
    ListAt(es, i);
    if i < |ns| {
      ArithStep(p, es, ns, trace, d, i, first, acc);
      Misfit(p, es, ns, v, trace, d, end, i + 1, false, Combine(p, first, acc, ns[i]).value);
    }
  }

  // ---------- choices ----------

  // `if` takes its second operand for any number but 0, and its third for 0.
  lemma {:induction false} IfLaw(c: Ref, a: Ref, b: Ref, n: u32, st: St, mid: St, d: nat)
    requires d <= MAX_EXECUTION_DEPTH && st.frames != [] && mid.frames != []
    requires c.To? && Eval(c, st, d) == Give(Num(n), mid)
    ensures n != 0 ==> RunPrim(If, PairList([c, a, b]), st, d) == Eval(a, mid, d)
    ensures n == 0 ==> RunPrim(If, PairList([c, a, b]), st, d) == Eval(b, mid, d)
  {
    hide Eval, PairList, Disciplined;
    ThreeOperands(c, a, b);
  }

  function ZeroOrOne(b: bool): Ref {
    if b then Num(1) else Num(0)
  }

  // =, <, >, <=, >= and /= compare unsigned words; they give 1 or 0.
  lemma {:induction false} ComparisonLaw(a: Ref, b: Ref, x: u32, y: u32, st: St, mid: St, end: St, d: nat)
    requires d <= MAX_EXECUTION_DEPTH && st.frames != [] && mid.frames != []
    requires Eval(a, st, d) == Give(Num(x), mid) && Eval(b, mid, d) == Give(Num(y), end)
    ensures RunPrim(Eq, PairList([a, b]), st, d) == Give(ZeroOrOne(x == y), end)
    ensures RunPrim(Less, PairList([a, b]), st, d) == Give(ZeroOrOne(x < y), end)
    ensures RunPrim(Greater, PairList([a, b]), st, d) == Give(ZeroOrOne(x > y), end)
    ensures RunPrim(LessEq, PairList([a, b]), st, d) == Give(ZeroOrOne(x <= y), end)
    ensures RunPrim(GreaterEq, PairList([a, b]), st, d) == Give(ZeroOrOne(x >= y), end)
    ensures RunPrim(NotEq, PairList([a, b]), st, d) == Give(ZeroOrOne(x != y), end)
  {
    hide Eval, PairList, Disciplined, RunEq, RunCompare;
    Compared(a, b, x, y, st, mid, end, d);
  }

  lemma {:induction false} Compared(a: Ref, b: Ref, x: u32, y: u32, st: St, mid: St, end: St, d: nat)
    requires d <= MAX_EXECUTION_DEPTH && st.frames != [] && mid.frames != []
    requires Eval(a, st, d) == Give(Num(x), mid) && Eval(b, mid, d) == Give(Num(y), end)
    ensures RunEq(PairList([a, b]), st, d) == Give(ZeroOrOne(x == y), end)
    ensures forall p :: RunCompare(p, PairList([a, b]), st, d) == Give(ZeroOrOne(Compare(p, x, y)), end)
  {
    hide Eval, PairList, Disciplined;
    TwoOperands(a, b);
  }

  lemma {:induction false} LogicOf(conj: bool, es: seq<Ref>, ns: seq<u32>, trace: seq<St>, d: nat, i: nat)
    requires d <= MAX_EXECUTION_DEPTH && InOrder(es, Numbers(ns), trace, d) && i <= |ns|
    requires forall j :: i <= j < |ns| - 1 ==> (ns[j] != 0) == conj
    ensures |ns| == |es| && (i < |ns| ==> (ns[|ns| - 1] != 0) == conj) ==>
              LogicLoop(conj, PairList(es[i..]), trace[i], d) == Give(Truth(conj), trace[|ns|])
    ensures i < |ns| && (ns[|ns| - 1] != 0) != conj ==>
              LogicLoop(conj, PairList(es[i..]), trace[i], d) == Give(Truth(!conj), trace[|ns|])
    decreases |ns| - i
  {
    hide Eval, PairList;
    ListAt(es, i);
    if i < |ns| {
      assert Step(es, Numbers(ns), trace, d, i);
      LogicOf(conj, es, ns, trace, d, i + 1);
    }
  }

  // The first k numbers are 0, or none of them is.
  ghost predicate AllZero(ns: seq<u32>, k: int) {
    forall i :: 0 <= i < k && i < |ns| ==> ns[i] == 0
  }

  ghost predicate NoneZero(ns: seq<u32>, k: int) {
    forall i :: 0 <= i < k && i < |ns| ==> ns[i] != 0
  }

  // `and` of numbers is 1 if none is 0; the first 0 ends it with 0, and nothing behind
  // it is evaluated. `or` likewise, with the first number that is not 0 giving 1.
  lemma {:induction false} LogicLaw(es: seq<Ref>, ns: seq<u32>, trace: seq<St>, d: nat)
    requires d <= MAX_EXECUTION_DEPTH && InOrder(es, Numbers(ns), trace, d)
    ensures |ns| == |es| && NoneZero(ns, |ns|) ==> RunPrim(And, PairList(es), trace[0], d) == Give(Num(1), trace[|ns|])
    ensures ns != [] && NoneZero(ns, |ns| - 1) && ns[|ns| - 1] == 0 ==>
              RunPrim(And, PairList(es), trace[0], d) == Give(Num(0), trace[|ns|])
    ensures |ns| == |es| && AllZero(ns, |ns|) ==> RunPrim(Or, PairList(es), trace[0], d) == Give(Num(0), trace[|ns|])
    ensures ns != [] && AllZero(ns, |ns| - 1) && ns[|ns| - 1] != 0 ==>
              RunPrim(Or, PairList(es), trace[0], d) == Give(Num(1), trace[|ns|])
  {
    hide Eval, PairList, LogicLoop, RunPrim, Step;
    assert es[0..] == es;
    LogicIsLoop(PairList(es), trace[0], d);
    if NoneZero(ns, |ns| - 1) {
      LogicOf(true, es, ns, trace, d, 0);
    }
    if AllZero(ns, |ns| - 1) {
      LogicOf(false, es, ns, trace, d, 0);
    }
  }

  lemma {:induction false} LogicIsLoop(args: Ref, st: St, d: nat)
    requires d <= MAX_EXECUTION_DEPTH && st.frames != []
    ensures RunPrim(And, args, st, d) == LogicLoop(true, args, st, d)
    ensures RunPrim(Or, args, st, d) == LogicLoop(false, args, st, d)
  {
    hide LogicLoop, Disciplined;
  }

  // ---------- lists and strings ----------

  lemma {:induction false} ListOf(es: seq<Ref>, vs: seq<Ref>, trace: seq<St>, d: nat, i: nat)
    requires d <= MAX_EXECUTION_DEPTH && InOrder(es, vs, trace, d) && i <= |es| == |vs|
    ensures ListLoop(PairList(es[i..]), vs[..i], trace[i], d) == Give(QuoteList(vs), trace[|es|])
    decreases |es| - i
  {
    hide Eval, PairList, QuoteList;
    ListAt(es, i);
    if i < |es| {
      assert Step(es, vs, trace, d, i);
      assert vs[..i] + [vs[i]] == vs[..i + 1];
      ListOf(es, vs, trace, d, i + 1);
    } else {
      assert vs[..i] == vs;
    }
  }

  // `list` gives the list of its operands' values, in order.
  lemma {:induction false} ListLaw(es: seq<Ref>, vs: seq<Ref>, trace: seq<St>, d: nat)
    requires d <= MAX_EXECUTION_DEPTH && es != [] && InOrder(es, vs, trace, d) && |es| == |vs|
    ensures RunPrim(List, PairList(es), trace[0], d) == Give(QuoteList(vs), trace[|es|])
  {
    hide Eval, ListLoop, Disciplined, InOrder, QuoteList;
    ListOf(es, vs, trace, d, 0);
    assert es[0..] == es && vs[..0] == [];
  }

  function Concat(ss: seq<string>): string {
    if ss == [] then "" else ss[0] + Concat(ss[1..])
  }

  function Strings(ss: seq<string>): (r: seq<Ref>)
    ensures |r| == |ss| && forall i :: 0 <= i < |ss| ==> r[i] == To(Str(ss[i]))
  {
    seq(|ss|, i requires 0 <= i < |ss| => To(Str(ss[i])))
  }

  lemma {:induction false} ConcatOf(es: seq<Ref>, ss: seq<string>, trace: seq<St>, d: nat, i: nat, buf: string)
    requires d <= MAX_EXECUTION_DEPTH && InOrder(es, Strings(ss), trace, d) && i <= |es| == |ss|
    ensures AppendLoop(PairList(es[i..]), buf, trace[i], d) == Give(To(Str(buf + Concat(ss[i..]))), trace[|es|])
    decreases |es| - i
  {
    hide Eval, PairList;
    ListAt(es, i);
    if i < |es| {
      assert Step(es, Strings(ss), trace, d, i);
      ConcatOf(es, ss, trace, d, i + 1, buf + ss[i]);
      assert ss[i..][1..] == ss[i + 1..];
      assert buf + ss[i] + Concat(ss[i + 1..]) == buf + Concat(ss[i..]);
    } else {
      assert buf + "" == buf;
    }
  }

  // `string-append` gives the strings one after the other.
  lemma {:induction false} StringAppendLaw(es: seq<Ref>, ss: seq<string>, trace: seq<St>, d: nat)
    requires d <= MAX_EXECUTION_DEPTH && es != [] && InOrder(es, Strings(ss), trace, d) && |es| == |ss|
    ensures RunPrim(StringAppend, PairList(es), trace[0], d) == Give(To(Str(Concat(ss))), trace[|es|])
  {
    hide Eval, AppendLoop, Disciplined, InOrder, Concat;
    ConcatOf(es, ss, trace, d, 0, "");
    assert es[0..] == es && ss[0..] == ss && "" + Concat(ss) == Concat(ss);
  }

  // `car` and `cdr` evaluate the two halves of a list node; `not` is 1 for 0 alone;
  // int->string gives the digits; display gives null.
  lemma {:induction false} OneOperandLaw(e: Ref, v: Ref, st: St, mid: St, d: nat)
    requires d <= MAX_EXECUTION_DEPTH && st.frames != [] && mid.frames != [] && Eval(e, st, d) == Give(v, mid)
    ensures IsQuotePair(v) ==> RunPrim(Car, PairList([e]), st, d) == Eval(v.node.p1, mid, d)
    ensures IsQuotePair(v) ==> RunPrim(Cdr, PairList([e]), st, d) == Eval(v.node.p2, mid, d)
    ensures IsInt(v) ==> RunPrim(Not, PairList([e]), st, d) == Give(ZeroOrOne(v.node.num == 0), mid)
    ensures IsInt(v) && v.node.num <= 1_000_000_000 ==>
              RunPrim(IntToString, PairList([e]), st, d) == Give(To(Str(Decimal.Render(v.node.num))), mid)
    ensures v.To? ==> RunPrim(Display, PairList([e]), st, d) == Give(Null, mid)
  {
    hide Eval, PairList, Disciplined, Decimal.Render;
    OneOperand(e);
  }

  lemma {:induction false} RangeAt(low: int, high: int, i: nat)
    requires -0x8000_0000 <= low <= high <= 0x7FFF_FFFF && i < high - low
    ensures RangeItems(low, high)[i] == Num((low + i) % TWO32)
    decreases high - low
  {
    if i > 0 {
      RangeAt(low + 1, high, i - 1);
    }
  }

  // `range` of two signed numbers is the list from the first up to, not including, the
  // second. Its operands are not evaluated.
  lemma {:induction false} RangeLaw(low: int, high: int, st: St, d: nat) returns (items: seq<Ref>)
    requires d <= MAX_EXECUTION_DEPTH && st.frames != [] && -0x8000_0000 <= low <= high <= 0x7FFF_FFFF
    ensures RunPrim(Range, PairList([Num(low % TWO32), Num(high % TWO32)]), st, d) == Give(QuoteList(items), st)
    ensures |items| == high - low && forall i :: 0 <= i < |items| ==> items[i] == Num((low + i) % TWO32)
  {
    hide Eval, PairList, Disciplined, QuoteList, RangeItems;
    items := RangeItems(low, high);
    TwoOperands(Num(low % TWO32), Num(high % TWO32));
    forall i | 0 <= i < |items|
      ensures items[i] == Num((low + i) % TWO32)
    {
      RangeAt(low, high, i);
    }
  }

  // An operand of the wrong kind gives null.
  lemma {:induction false} WrongKindLaw(e: Ref, v: Ref, st: St, mid: St, d: nat)
    requires d <= MAX_EXECUTION_DEPTH && st.frames != [] && mid.frames != [] && Eval(e, st, d) == Give(v, mid)
    ensures !IsQuotePair(v) ==> RunPrim(Car, PairList([e]), st, d) == Give(Null, mid)
    ensures !IsQuotePair(v) ==> RunPrim(Cdr, PairList([e]), st, d) == Give(Null, mid)
    ensures !IsInt(v) ==> RunPrim(Not, PairList([e]), st, d) == Give(Null, mid)
    ensures !IsInt(v) ==> RunPrim(IntToString, PairList([e]), st, d) == Give(Null, mid)
  {
    hide Eval, PairList, Disciplined, Decimal.Render;
    OneOperand(e);
  }

  lemma {:induction false} WrongKindOfTwo(a: Ref, b: Ref, v: Ref, w: Ref, st: St, mid: St, end: St, d: nat)
    requires d <= MAX_EXECUTION_DEPTH && st.frames != [] && mid.frames != [] && !(IsInt(v) && IsInt(w))
    requires Eval(a, st, d) == Give(v, mid) && Eval(b, mid, d) == Give(w, end)
    ensures RunPrim(Eq, PairList([a, b]), st, d) == Give(Null, if v.Null? then mid else end)
    ensures forall p :: p == Less || p == Greater || p == LessEq || p == GreaterEq || p == NotEq ==>
              RunPrim(p, PairList([a, b]), st, d) == Give(Null, end)
  {
    hide Eval, PairList, Disciplined;
    TwoOperands(a, b);
  }

  // ---------- definitions ----------

  // `define` of a name gives it the value and leaves every other name its meaning.
  lemma {:induction false} DefineLaw(name: string, e: Ref, v: Ref, st: St, mid: St, d: nat, other: string)
    requires d <= MAX_EXECUTION_DEPTH && st.frames != [] && mid.frames != [] && Eval(e, st, d) == Give(v, mid)
    ensures var r := RunPrim(Define, PairList([To(Symbol(name)), e]), st, d);
            && r.out == Ret(v)
            && Lookup(r.st.frames, other) == if other == name then Some(v) else Lookup(mid.frames, other)
  {
    hide Eval, PairList, Disciplined, Lookup, Bind;
    TwoOperands(To(Symbol(name)), e);
    BindShadows(mid.frames, name, v, other);
  }

  // `define` of a list of names makes the first the function of the others.
  lemma {:induction false} DefineFunctionLaw(name: string, params: seq<string>, body: Ref, st: St, d: nat,
                                             other: string)
    requires d <= MAX_EXECUTION_DEPTH && st.frames != []
    ensures var r := RunPrim(Define, PairList([PairList(Symbols([name] + params)), body]), st, d);
            && r.out == Ret(Null)
            && Lookup(r.st.frames, other) ==
               if other == name then Some(Function(params, body)) else Lookup(st.frames, other)
  {
    hide Eval, PairList, Disciplined, Lookup, Bind;
    var target := Symbols([name] + params);
    TwoOperands(PairList(target), body);
    ListAt(target, 0);
    assert target[0..] == target && target[1..] == Symbols(params);
    BindShadows(st.frames, name, Function(params, body), other);
  }

  // ---------- quoting ----------

  // Quoted trees with the quotes taken off.
  function Plain(r: Ref): Ref
    decreases Size(r)
  {
    if r.Null? then Null
    else match r.node
      case QuotePair(a, b) => To(Pair(Plain(a), Plain(b)))
      case QuoteSymbol(s) => To(Symbol(s))
      case _ => r
  }

  predicate Unquoted(r: Ref)
    decreases Size(r)
  {
    r.To? && !r.node.QuotePair? && !r.node.QuoteSymbol?
    && (r.node.Pair? ==> Unquoted(r.node.p1) && Unquoted(r.node.p2))
  }

  // Where `quote` does not fault, it gives the tree with quotes on.
  lemma {:induction false} QuoteLaw(r: Ref)
    requires Unquoted(r)
    ensures QuoteTree(r).Ret? && Plain(QuoteTree(r).ref) == r && (IsPair(r) ==> IsQuotePair(QuoteTree(r).ref))
    decreases Size(r)
  {
    if IsPair(r) {
      QuoteLaw(r.node.p1);
      QuoteLaw(r.node.p2);
    }
  }

  // `unquote` of a quoted call of a builtin on numbers makes the call.
  lemma {:induction false} UnquoteLaw(name: string, p: Prim, ns: seq<u32>, st: St, d: nat)
    requires d + 3 < 64 && st.frames != [] && Lookup(st.frames, name) == Some(To(Builtin(p))) && ns != []
    ensures UnquoteTree(QuoteList([To(QuoteSymbol(name))] + Numbers(ns)), st, d) ==
            RunPrim(p, PairList(Numbers(ns)), st, d + 1)
  {
    hide RunPrim, Lookup, PairList, QuoteList, Call, UnquoteTree, Eval;
    var fn, numbers := To(Builtin(p)), Numbers(ns);
    var call := [To(QuoteSymbol(name))] + numbers;
    ListAt(call, 0);
    assert call[0..] == call && call[1..] == numbers == numbers[0..];
    SymbolGives(name, fn, st, d);
    UnquoteNumbers(ns, st, d, 0);
    UnquotePair(To(QuoteSymbol(name)), QuoteList(numbers), fn, PairList(numbers), st, d);
    Constant(fn, st, d + 1);
    HeadDecides(fn, PairList(numbers), fn, st, st, d);
  }

  // A quoted symbol stands for the symbol, a quoted pair for the pair of what its parts
  // give, evaluated once more.
  lemma {:induction false} UnquotePair(a: Ref, b: Ref, v: Ref, w: Ref, st: St, d: nat)
    requires d <= MAX_EXECUTION_DEPTH && st.frames != [] && a.To? && a.node.QuoteSymbol?
    requires Eval(To(Symbol(a.node.span)), st, d) == Give(v, st) && UnquoteTree(b, st, d) == Give(w, st)
    ensures UnquoteTree(To(QuotePair(a, b)), st, d) == Eval(To(Pair(v, w)), st, d)
  {
    hide Eval, Disciplined;
  }

  lemma {:induction false} UnquoteNumbers(ns: seq<u32>, st: St, d: nat, i: nat)
    requires d + 3 < 64 && st.frames != [] && i <= |ns|
    ensures UnquoteTree(QuoteList(Numbers(ns)[i..]), st, d) == Give(PairList(Numbers(ns)[i..]), st)
    decreases |ns| - i
  {
    hide RunPrim, Lookup, PairList, QuoteList;
    ListAt(Numbers(ns), i);
    if i < |ns| {
      UnquoteNumbers(ns, st, d, i + 1);
      Constant(Num(ns[i]), st, d);
      Constant(Num(ns[i]), st, d + 1);
      assert UnquoteTree(Num(ns[i]), st, d) == Give(Num(ns[i]), st);
      assert Eval(PairList(Numbers(ns)[i..]), st, d) == Give(PairList(Numbers(ns)[i..]), st);
    }
  }

  // ---------- functions over lists ----------

  // The calls (f v) for the values of a list.
  function CallsOn(f: Ref, vs: seq<Ref>): (calls: seq<Ref>)
    ensures |calls| == |vs| && forall i :: 0 <= i < |vs| ==> calls[i] == PairList([f, vs[i]])
  {
    seq(|vs|, i requires 0 <= i < |vs| => PairList([f, vs[i]]))
  }

  lemma {:induction false} MapOf(f: Ref, vs: seq<Ref>, ws: seq<Ref>, trace: seq<St>, d: nat, i: nat)
    requires d <= MAX_EXECUTION_DEPTH && InOrder(CallsOn(f, vs), ws, trace, d) && i <= |vs| == |ws|
    ensures RecursiveMap(f, QuoteList(vs[i..]), trace[i], d) == Give(PairList(ws[i..]), trace[|vs|])
    decreases |vs| - i
  {
    hide Eval, PairList, QuoteList;
    ListAt(vs, i);
    ListAt(ws, i);
    if i < |vs| {
      assert Step(CallsOn(f, vs), ws, trace, d, i);
      MapOf(f, vs, ws, trace, d, i + 1);
    }
  }

  lemma {:induction false} ListBuiltins(args: Ref, st: St, d: nat)
    requires d <= MAX_EXECUTION_DEPTH && st.frames != []
    ensures RunPrim(Map, args, st, d) == RunMap(args, st, d)
    ensures RunPrim(Apply, args, st, d) == RunApply(args, st, d)
    ensures RunPrim(Car, args, st, d) == RunCar(args, st, d)
    ensures RunPrim(Cdr, args, st, d) == RunCdr(args, st, d)
  {
    hide RunMap, RunApply, RunCar, RunCdr, Disciplined;
  }

  // A number in place of the list is taken for a pointer: 0 for null, any other faults.
  lemma {:induction false} ApplyToNumber(fe: Ref, le: Ref, f: Ref, n: u32, st: St, mid: St, end: St, d: nat)
    requires d <= MAX_EXECUTION_DEPTH && st.frames != [] && mid.frames != [] && end.frames != []
    requires Eval(fe, st, d) == Give(f, mid) && Eval(le, mid, d) == Give(Num(n), end)
    ensures RunPrim(Apply, PairList([fe, le]), st, d) == if n == 0 then Give(Null, end) else Crash(end)
  {
    hide Eval, Disciplined, PairList, RunPrim;
    ListBuiltins(PairList([fe, le]), st, d);
    TwoOperands(fe, le);
  }

  lemma {:induction false} MapIsRecursive(fe: Ref, le: Ref, f: Ref, l: Ref, st: St, mid: St, end: St, d: nat)
    requires d <= MAX_EXECUTION_DEPTH && st.frames != [] && mid.frames != [] && end.frames != []
    requires Eval(fe, st, d) == Give(f, mid) && Eval(le, mid, d) == Give(l, end)
    ensures RunMap(PairList([fe, le]), st, d) == RecursiveMap(f, l, end, d)
  {
    hide Eval, RecursiveMap, Disciplined, PairList;
    TwoOperands(fe, le);
  }

  lemma {:induction false} ApplyIsLoop(fe: Ref, le: Ref, f: Ref, v: Ref, l: Ref, st: St, mid: St, end: St, d: nat)
    requires d <= MAX_EXECUTION_DEPTH && st.frames != [] && mid.frames != [] && end.frames != []
    requires Eval(fe, st, d) == Give(f, mid) && Eval(le, mid, d) == Give(To(QuotePair(v, l)), end)
    ensures RunApply(PairList([fe, le]), st, d) == ApplyLoop(f, v, l, end, d)
  {
    hide Eval, ApplyLoop, Disciplined, PairList;
    TwoOperands(fe, le);
  }

  // `map` applies a function to the elements of a list, in order, and gives the
  // results as a plain list.
  lemma {:induction false} MapLaw(fe: Ref, le: Ref, f: Ref, vs: seq<Ref>, ws: seq<Ref>, st: St, mid: St,
                                  trace: seq<St>, d: nat)
    requires d <= MAX_EXECUTION_DEPTH && st.frames != [] && mid.frames != []
    requires InOrder(CallsOn(f, vs), ws, trace, d) && |vs| == |ws|
    requires Eval(fe, st, d) == Give(f, mid) && Eval(le, mid, d) == Give(QuoteList(vs), trace[0])
    ensures RunPrim(Map, PairList([fe, le]), st, d) == Give(PairList(ws), trace[|vs|])
  {
    hide Eval, RecursiveMap, RunMap, RunPrim, Step, QuoteList, PairList;
    ListBuiltins(PairList([fe, le]), st, d);
    MapIsRecursive(fe, le, f, QuoteList(vs), st, mid, trace[0], d);
    MapOf(f, vs, ws, trace, d, 0);
    assert vs[0..] == vs && ws[0..] == ws;
  }

  // The steps of a left fold: (f (f (f v_0 v_1) v_2) ...).
  ghost predicate Folds(f: Ref, vs: seq<Ref>, carries: seq<Ref>, trace: seq<St>, d: nat)
    requires d <= MAX_EXECUTION_DEPTH
  {
    && |carries| == |vs| == |trace| > 0 && carries[0] == vs[0]
    && (forall i :: 0 <= i < |trace| ==> trace[i].frames != [])
    && (forall i :: 0 <= i < |vs| - 1 ==> FoldStep(f, carries[i], vs[i + 1], carries[i + 1], trace[i], trace[i + 1], d))
  }

  ghost predicate FoldStep(f: Ref, carry: Ref, v: Ref, next: Ref, before: St, after: St, d: nat)
    requires d <= MAX_EXECUTION_DEPTH && before.frames != []
  {
    Eval(PairList([f, carry, v]), before, d) == Give(next, after)
  }

  lemma {:induction false} FoldOf(f: Ref, vs: seq<Ref>, carries: seq<Ref>, trace: seq<St>, d: nat, i: nat)
    requires d <= MAX_EXECUTION_DEPTH && Folds(f, vs, carries, trace, d) && i < |vs|
    ensures ApplyLoop(f, carries[i], QuoteList(vs[i + 1..]), trace[i], d) == Give(carries[|vs| - 1], trace[|vs| - 1])
    decreases |vs| - i
  {
    hide Eval, PairList, QuoteList;
    ListAt(vs, i + 1);
    if i + 1 < |vs| {
      assert FoldStep(f, carries[i], vs[i + 1], carries[i + 1], trace[i], trace[i + 1], d);
      FoldOf(f, vs, carries, trace, d, i + 1);
    }
  }

  // `apply` is the left fold of a list by a function.
  lemma {:induction false} ApplyLaw(fe: Ref, le: Ref, f: Ref, vs: seq<Ref>, carries: seq<Ref>, st: St, mid: St,
                                    trace: seq<St>, d: nat)
    requires d <= MAX_EXECUTION_DEPTH && st.frames != [] && mid.frames != [] && Folds(f, vs, carries, trace, d)
    requires Eval(fe, st, d) == Give(f, mid) && Eval(le, mid, d) == Give(QuoteList(vs), trace[0])
    ensures RunPrim(Apply, PairList([fe, le]), st, d) == Give(carries[|vs| - 1], trace[|vs| - 1])
  {
    hide Eval, ApplyLoop, RunApply, RunPrim, FoldStep, QuoteList, PairList;
    ListBuiltins(PairList([fe, le]), st, d);
    ListAt(vs, 0);
    ApplyIsLoop(fe, le, f, vs[0], QuoteList(vs[1..]), st, mid, trace[0], d);
    FoldOf(f, vs, carries, trace, d, 0);
    assert vs[0..] == vs;
  }
}
