// What the Lisp reader reads, in terms of tokens: the values of usr/lisp/parser.h,
// the tokens each is made of, and a reader that decides by looking one token ahead.
module Grammar {
  import opened Lexer

  datatype Value =
    | List(items: seq<Value>)
    | PairOf(first: Value, second: Value)
    | QuoteList(items: seq<Value>)
    | QuoteName(span: string)
    | Number(span: string)
    | Name(span: string)
    | PathName(span: string)
    | Text(span: string)

  // The grammar: the tokens of a value, followed by a stream.
  function Emit(v: Value, k: Stream): Stream
    decreases v
  {
    match v
    case List(items) => More(Left, EmitAll(items, More(Right, k)))
    case PairOf(a, b) => More(Left, Emit(a, More(Dot, Emit(b, More(Right, k)))))
    case QuoteList(items) => More(QuoteLeft, EmitAll(items, More(Right, k)))
    case QuoteName(s) => More(QuoteSymbol(s), k)
    case Number(s) => More(Token.Int(s), k)
    case Name(s) => More(Symbol(s), k)
    case PathName(s) => More(Path(s), k)
    case Text(s) => More(Token.Str(s), k)
  }

  function EmitAll(items: seq<Value>, k: Stream): Stream
    decreases items
  {
    if items == [] then k else Emit(items[0], EmitAll(items[1..], k))
  }

  // The reader has no empty lists.
  predicate Readable(v: Value)
    decreases v
  {
    match v
    case List(items) => items != [] && AllReadable(items)
    case PairOf(a, b) => Readable(a) && Readable(b)
    case QuoteList(items) => items != [] && AllReadable(items)
    case _ => true
  }

  predicate AllReadable(items: seq<Value>)
    decreases items
  {
    items == [] || (Readable(items[0]) && AllReadable(items[1..]))
  }

  // Got: a value, and the tokens behind it. Cut: the text ran out in an unclosed
  // string or comment.
  datatype Reading<+T> = Got(value: T, rest: Stream) | Fail | Cut

  // Decides by looking one token ahead; never reads a token twice.
  function Read(s: Stream): (r: Reading<Value>)
    ensures r.Got? ==> Length(r.rest) < Length(s)
    ensures r.Fail? ==> s.token != Overrun
    decreases Length(s), 0
  {
    match s
    case Last(t) => if t.Overrun? then Cut else Fail
    case More(t, rest) =>
      match t
      case Left =>
        (match ReadAll(rest)
         case Cut => Cut
         case Fail => Fail
         case Got(items, behind) =>
           if behind.token.Right? && behind.More? then Got(List(items), behind.rest)
           else if |items| == 1 && behind.token.Dot? && behind.More? then ReadSecond(items[0], behind.rest)
           else Fail)
      case QuoteLeft =>
        (match ReadAll(rest)
         case Cut => Cut
         case Fail => Fail
         case Got(items, behind) =>
           if behind.token.Right? && behind.More? then Got(QuoteList(items), behind.rest) else Fail)
      case QuoteSymbol(x) => Got(QuoteName(x), rest)
      case Int(x) => Got(Number(x), rest)
      case Symbol(x) => Got(Name(x), rest)
      case Path(x) => Got(PathName(x), rest)
      case Str(x) => Got(Text(x), rest)
      case Overrun => Cut
      case _ => Fail
  }

  // The second half of a pair, behind its dot.
  function ReadSecond(first: Value, s: Stream): (r: Reading<Value>)
    ensures r.Got? ==> Length(r.rest) < Length(s)
    decreases Length(s), 1
  {
    match Read(s)
    case Cut => Cut
    case Fail => Fail
    case Got(second, behind) =>
      if behind.token.Right? && behind.More? then Got(PairOf(first, second), behind.rest)
      else if behind.token.Overrun? then Cut
      else Fail
  }

  // As many values as follow each other, at least one.
  function ReadAll(s: Stream): (r: Reading<seq<Value>>)
    ensures r.Got? ==> Length(r.rest) < Length(s) && r.value != [] && r.rest.token != Overrun
    ensures r.Fail? ==> s.token != Overrun
    decreases Length(s), 1
  {
    match Read(s)
    case Cut => Cut
    case Fail => Fail
    case Got(v, behind) =>
      match ReadAll(behind)
      case Cut => Cut
      case Fail => Got([v], behind)
      case Got(items, rest) => Got([v] + items, rest)
  }

  // --- Soundness: what is read is spelled by exactly the tokens taken ---

  lemma {:induction false} ReadIsSound(s: Stream)
    requires Read(s).Got?
    ensures Readable(Read(s).value) && s == Emit(Read(s).value, Read(s).rest)
    decreases Length(s), 0
  {
    if s.token == Left {
      ReadAllIsSound(s.rest);
      var all := ReadAll(s.rest);
      if all.rest.token.Dot? {
        ReadIsSound(all.rest.rest);
        assert all.value == [all.value[0]];
        EmitOne(all.value[0], all.rest);
      }
    } else if s.token == QuoteLeft {
      ReadAllIsSound(s.rest);
    }
  }

  lemma EmitOne(v: Value, k: Stream)
    ensures EmitAll([v], k) == Emit(v, k)
    ensures AllReadable([v]) == Readable(v)
  {
    assert [v][1..] == [];
  }

  lemma EmitMany(v: Value, items: seq<Value>, k: Stream)
    ensures EmitAll([v] + items, k) == Emit(v, EmitAll(items, k))
    ensures AllReadable([v] + items) == (Readable(v) && AllReadable(items))
  {
    assert ([v] + items)[1..] == items;
  }

  lemma {:induction false} ReadAllIsSound(s: Stream)
    requires ReadAll(s).Got?
    ensures AllReadable(ReadAll(s).value) && s == EmitAll(ReadAll(s).value, ReadAll(s).rest)
    decreases Length(s), 1
  {
    ReadIsSound(s);
    var v, behind := Read(s).value, Read(s).rest;
    if ReadAll(behind).Got? {
      ReadAllIsSound(behind);
      EmitMany(v, ReadAll(behind).value, ReadAll(behind).rest);
    } else {
      EmitOne(v, behind);
    }
  }

  // --- Completeness: whatever is spelled is read ---

  // No value starts here.
  predicate Ends(s: Stream) {
    s.token.Right? || s.token.Dot? || s.token.Eof?
  }

  lemma {:induction false} ReadIsComplete(v: Value, k: Stream)
    requires Readable(v)
    ensures Read(Emit(v, k)) == Got(v, k)
    decreases v
  {
    match v
    case List(items) => ReadAllIsComplete(items, More(Right, k));
    case QuoteList(items) => ReadAllIsComplete(items, More(Right, k));
    case PairOf(a, b) =>
      var behind := More(Dot, Emit(b, More(Right, k)));
      ReadIsComplete(a, behind);
      ReadIsComplete(b, More(Right, k));
      assert ReadAll(behind) == Fail;
    case _ =>
  }

  lemma {:induction false} ReadAllIsComplete(items: seq<Value>, k: Stream)
    requires items != [] && AllReadable(items) && Ends(k)
    ensures ReadAll(EmitAll(items, k)) == Got(items, k)
    decreases items
  {
    ReadIsComplete(items[0], EmitAll(items[1..], k));
    if items[1..] == [] {
      assert Read(k) == Fail;
      assert items == [items[0]];
    } else {
      ReadAllIsComplete(items[1..], k);
      assert items == [items[0]] + items[1..];
    }
  }

  // A value is read exactly when its tokens come first; so at most one value is
  // spelled by the beginning of a stream.
  lemma ReadIffEmitted(s: Stream, v: Value, k: Stream)
    ensures Read(s) == Got(v, k) <==> Readable(v) && s == Emit(v, k)
  {
    if Read(s) == Got(v, k) {
      ReadIsSound(s);
    }
    if Readable(v) && s == Emit(v, k) {
      ReadIsComplete(v, k);
    }
  }

  lemma GrammarIsUnambiguous(v: Value, k: Stream, w: Value, l: Stream)
    requires Readable(v) && Readable(w) && Emit(v, k) == Emit(w, l)
    ensures v == w && k == l
  {
    ReadIsComplete(v, k);
    ReadIsComplete(w, l);
  }
}
