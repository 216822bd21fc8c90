// The values of the Lisp interpreter: struct ASTNode of usr/lisp/exe.h.
//
// A node is never changed once it has been built and its identity is observed
// only by the collector (see Collector.dfy), so nodes are values here and a
// pointer is either Null or To a node.
module Ast {
  import opened Words

  // The methods implemented in C (usr/lisp/scope.c); read and exec, which do I/O,
  // are not part of the model.
  datatype Prim =
    | Add | Sub | Mul | Div
    | If | Eq | Define | Display | And | Or | Not | Lambda
    | Less | Greater | LessEq | GreaterEq | NotEq
    | StringAppend | Let | Apply | Map | IntToString
    | List | Car | Cdr | Quote | Unquote | Range

  datatype Ref = Null | To(node: Node)

  datatype Node =
    | Pair(p1: Ref, p2: Ref)
    | QuotePair(p1: Ref, p2: Ref)
    | Symbol(span: string)
    | QuoteSymbol(span: string)
    | Int(num: u32)
    | Path(span: string)
    | Str(span: string)
    | Method(params: Ref, body: Ref)   // AST_METHOD with a null function pointer
    | Builtin(prim: Prim)              // AST_METHOD with a function pointer

  predicate IsMethod(n: Node) {
    n.Method? || n.Builtin?
  }

  // What reading a pointer field yields: the pointer, or bits that are no pointer.
  datatype Load = Ptr(ref: Ref) | Wild

  // data.pair.p1 of any node. The union overlays it on `params`, on the number
  // and on the span pointer.
  function CarField(n: Node): (r: Load)
    ensures r.Ptr? ==> Size(r.ref) < Size(To(n))
  {
    match n
    case Pair(a, _) => Ptr(a)
    case QuotePair(a, _) => Ptr(a)
    case Method(a, _) => Ptr(a)
    case Builtin(_) => Ptr(Null)
    case Int(v) => if v == 0 then Ptr(Null) else Wild
    case _ => Wild
  }

  // data.pair.p2 of any node: numbers and spans leave those bytes zeroed.
  function CdrField(n: Node): (r: Ref)
    ensures Size(r) < Size(To(n))
  {
    match n
    case Pair(_, b) => b
    case QuotePair(_, b) => b
    case Method(_, b) => b
    case _ => Null
  }

  // The number of nodes hanging off a pointer, counted as a tree.
  function Size(r: Ref): nat {
    match r
    case Null => 0
    case To(n) =>
      match n
      case Pair(a, b) => 1 + Size(a) + Size(b)
      case QuotePair(a, b) => 1 + Size(a) + Size(b)
      case Method(a, b) => 1 + Size(a) + Size(b)
      case _ => 1
  }

  predicate IsPair(r: Ref) {
    r.To? && r.node.Pair?
  }

  predicate IsQuotePair(r: Ref) {
    r.To? && r.node.QuotePair?
  }

  predicate IsInt(r: Ref) {
    r.To? && r.node.Int?
  }

  function Num(i: u32): Ref {
    To(Int(i))
  }

  function Truth(b: bool): Ref {
    Num(if b then 1 else 0)
  }

  // A null-terminated list of AST_PAIR nodes.
  function PairList(items: seq<Ref>): (r: Ref)
    ensures items != [] ==> IsPair(r)
  {
    if items == [] then Null else To(Pair(items[0], PairList(items[1..])))
  }

  // A null-terminated list of AST_QUOTE_PAIR nodes.
  function QuoteList(items: seq<Ref>): (r: Ref)
    ensures items != [] ==> IsQuotePair(r)
  {
    if items == [] then Null else To(QuotePair(items[0], QuoteList(items[1..])))
  }
}
