// From parsed values to syntax nodes: convert_value and convert_list of usr/lisp/exe.c.
module Convert {
  import opened Words

  import opened Ast
  import Decimal
  import G = Grammar
  import opened ReaderLaws

  // Pairs and paths are not known to convert_value: it gives null for them.
  function ConvertValue(v: G.Value): Ref
    requires WellSpelled(v)
    decreases v
  {
    match v
    case Number(s) => Num(Decimal.ToUint(s))
    case QuoteList(items) => ConvertItems(items, true)
    case List(items) => ConvertItems(items, false)
    case QuoteName(s) => To(QuoteSymbol(s))
    case Name(s) => To(Symbol(s))
    case Text(s) => To(Node.Str(s[1..|s| - 1]))
    case _ => Null
  }

  // The chain of nodes the loop over a list's contents fills in; convert_list builds
  // the same plain chain, which scope_exec then walks. The node of an
  // empty list, which the reader never makes, would be left zeroed.
  function ConvertItems(items: seq<G.Value>, quoted: bool): Ref
    requires AllWellSpelled(items)
    decreases items
  {
    if items == [] then Null
    else
      var first := ConvertValue(items[0]);
      var rest := ConvertItems(items[1..], quoted);
      To(if quoted then QuotePair(first, rest) else Pair(first, rest))
  }

  // The values that have a text: no list is empty, and every span is one token.
  predicate Sound(v: G.Value)
    decreases v
  {
    match v
    case Number(s) => s != "" && forall i :: 0 <= i < |s| ==> '0' <= s[i] <= '9'
    case Name(s) => Lexer.Spelled(Lexer.Symbol(s))
    case QuoteName(s) => Lexer.Spelled(Lexer.QuoteSymbol(s))
    case PathName(s) => Lexer.Spelled(Lexer.Path(s))
    case Text(s) => |s| >= 2 && s[0] == '"' && s[|s| - 1] == '"' && forall i :: 0 < i < |s| - 1 ==> s[i] != '"'
    case List(items) => items != [] && AllSound(items)
    case QuoteList(items) => items != [] && AllSound(items)
    case PairOf(a, b) => Sound(a) && Sound(b)
  }

  predicate AllSound(items: seq<G.Value>)
    decreases items
  {
    items == [] || (Sound(items[0]) && AllSound(items[1..]))
  }

  // They are exactly what the reader reads.
  lemma {:induction false} SoundIffReadable(v: G.Value)
    ensures Sound(v) <==> G.Readable(v) && WellSpelled(v)
    decreases v
  {
    match v
    case List(items) => AllSoundIffReadable(items);
    case QuoteList(items) => AllSoundIffReadable(items);
    case PairOf(a, b) =>
      SoundIffReadable(a);
      SoundIffReadable(b);
    case _ =>
  }

  lemma {:induction false} AllSoundIffReadable(items: seq<G.Value>)
    ensures AllSound(items) <==> G.AllReadable(items) && AllWellSpelled(items)
    decreases items
  {
    if items != [] {
      SoundIffReadable(items[0]);
      AllSoundIffReadable(items[1..]);
    }
  }

  // What a value of the parser denotes, in terms of the text it was read from. A number
  // may have any digits and any number of leading zeros; only its last 32 bits count.
  // Dotted pairs and paths denote null.
  ghost predicate Denotes(v: G.Value, r: Ref)
    decreases v
  {
    match v
    case Number(s) =>
      exists n: nat, k: nat :: 1 <= k && n < Decimal.Pow10(k) && s == Decimal.Digits(n, k) && r == Num(n % TWO32)
    case Name(s) => Lexer.Spelled(Lexer.Symbol(s)) && r == To(Symbol(s))
    case QuoteName(s) => Lexer.Spelled(Lexer.QuoteSymbol(s)) && r == To(QuoteSymbol(s))
    case Text(s) => exists span: string :: '"' !in span && s == "\"" + span + "\"" && r == To(Node.Str(span))
    case List(items) => items != [] && DenotesList(items, r)
    case QuoteList(items) => items != [] && DenotesQuoteList(items, r)
    case PairOf(a, b) => Sound(a) && Sound(b) && r == Null
    case PathName(s) => Sound(v) && r == Null
  }

  // A chain of pairs, one for each value, ends in null.
  ghost predicate DenotesList(items: seq<G.Value>, r: Ref)
    decreases items
  {
    if items == [] then r == Null
    else IsPair(r) && Denotes(items[0], r.node.p1) && DenotesList(items[1..], r.node.p2)
  }

  ghost predicate DenotesQuoteList(items: seq<G.Value>, r: Ref)
    decreases items
  {
    if items == [] then r == Null
    else IsQuotePair(r) && Denotes(items[0], r.node.p1) && DenotesQuoteList(items[1..], r.node.p2)
  }

  // convert_value gives what a value denotes, and nothing else denotes it: for every
  // value the reader can produce.
  lemma {:induction false} ConvertsIffDenotes(v: G.Value, r: Ref)
    ensures Denotes(v, r) <==> G.Readable(v) && WellSpelled(v) && ConvertValue(v) == r
    decreases v
  {
    SoundIffReadable(v);
    match v
    case Number(s) => NumberIffDenotes(s, r);
    case Text(s) => TextIffDenotes(s, r);
    case List(items) => ListIffDenotes(items, r);
    case QuoteList(items) => QuoteListIffDenotes(items, r);
    case _ =>
  }

  lemma {:induction false} ListIffDenotes(items: seq<G.Value>, r: Ref)
    ensures DenotesList(items, r) <==> G.AllReadable(items) && AllWellSpelled(items) && ConvertItems(items, false) == r
    decreases items
  {
    if items != [] && IsPair(r) {
      ConvertsIffDenotes(items[0], r.node.p1);
      ListIffDenotes(items[1..], r.node.p2);
    }
  }

  lemma {:induction false} QuoteListIffDenotes(items: seq<G.Value>, r: Ref)
    ensures DenotesQuoteList(items, r) <==>
            G.AllReadable(items) && AllWellSpelled(items) && ConvertItems(items, true) == r
    decreases items
  {
    if items != [] && IsQuotePair(r) {
      ConvertsIffDenotes(items[0], r.node.p1);
      QuoteListIffDenotes(items[1..], r.node.p2);
    }
  }

  lemma {:induction false} NumberIffDenotes(s: string, r: Ref)
    ensures Denotes(G.Number(s), r) <==> WellSpelled(G.Number(s)) && ConvertValue(G.Number(s)) == r
  {
    if Denotes(G.Number(s), r) {
      var n: nat, k: nat :| 1 <= k && n < Decimal.Pow10(k) && s == Decimal.Digits(n, k) && r == Num(n % TWO32);
      NumberOfDigits(n, k);
    }
    if WellSpelled(G.Number(s)) && ConvertValue(G.Number(s)) == r {
      Decimal.ValueDigits(s);
      assert r == Num(Decimal.Value(s) % TWO32);
    }
  }

  lemma {:induction false} NumberOfDigits(n: nat, k: nat)
    requires 1 <= k && n < Decimal.Pow10(k)
    ensures WellSpelled(G.Number(Decimal.Digits(n, k)))
    ensures ConvertValue(G.Number(Decimal.Digits(n, k))) == Num(n % TWO32)
  {
    hide Decimal.Digits, Decimal.Value, Decimal.Pow10;
    Decimal.DigitsValue(n, k);
    Decimal.Uniquely(n, Decimal.Pow10(k), 0, n);
  }

  lemma {:induction false} TextIffDenotes(s: string, r: Ref)
    ensures Denotes(G.Text(s), r) <==> WellSpelled(G.Text(s)) && ConvertValue(G.Text(s)) == r
  {
    if Denotes(G.Text(s), r) {
      var span: string :| '"' !in span && s == "\"" + span + "\"" && r == To(Node.Str(span));
      assert s[1..|s| - 1] == span;
    }
    if WellSpelled(G.Text(s)) {
      var span := s[1..|s| - 1];
      assert s == "\"" + span + "\"";
    }
  }

  // Reading a rendered program and converting it gives exactly what it denotes.
  lemma {:induction false} ProgramTextDenotes(items: seq<G.Value>, program: Ref)
    requires items != [] && DenotesList(items, program)
    ensures G.ReadAll(Lexer.Tokens(TextsOf(items), 0)) == G.Got(items, Lexer.Last(Lexer.Eof))
    ensures AllWellSpelled(items) && ConvertItems(items, false) == program
  {
    ListIffDenotes(items, program);
    RenderedText(items);
    ReadInvertsRender(items);
  }

  // The text of a number of any length is read and converted to it, mod 2^32.
  lemma {:induction false} NumberText(n: nat, k: nat)
    requires 1 <= k && n < Decimal.Pow10(k)
    ensures var v := G.Number(Decimal.Digits(n, k));
            && G.ReadAll(Lexer.Tokens(Decimal.Digits(n, k) + " ", 0)) == G.Got([v], Lexer.Last(Lexer.Eof))
            && WellSpelled(v) && ConvertValue(v) == Num(n % TWO32)
  {
    hide Lexer.Tokens, G.ReadAll, Decimal.Digits, Decimal.Pow10, TextsOf, AllWellSpelled, G.AllReadable;
    var v := G.Number(Decimal.Digits(n, k));
    NumberOfDigits(n, k);
    OneText(v);
    G.EmitOne(v, Lexer.Last(Lexer.Eof));
    ReadInvertsRender([v]);
    RenderedText([v]);
  }

  // ---------- every program has a text ----------

  // Expressions a source text can denote: whole numbers, names, strings, and
  // non-empty proper lists of these, plain or quoted.
  predicate Literal(r: Ref)
    decreases r
  {
    match r
    case Null => false
    case To(n) =>
      match n
      case Int(_) => true
      case Symbol(s) => Lexer.Spelled(Lexer.Symbol(s))
      case QuoteSymbol(s) => Lexer.Spelled(Lexer.QuoteSymbol(s))
      case Str(s) => '"' !in s
      case Pair(a, b) => Literal(a) && (b.Null? || (IsPair(b) && Literal(b)))
      case QuotePair(a, b) => Literal(a) && (b.Null? || (IsQuotePair(b) && Literal(b)))
      case _ => false
  }

  // A value that denotes the expression. Ten digits hold any 32-bit number.
  function Source(r: Ref): G.Value
    requires Literal(r)
    decreases Size(r), 1
  {
    match r.node
    case Int(i) => G.Number(Decimal.Digits(i, 10))
    case Symbol(s) => G.Name(s)
    case QuoteSymbol(s) => G.QuoteName(s)
    case Str(s) => G.Text("\"" + s + "\"")
    case Pair(_, _) => G.List(SourceItems(r))
    case QuotePair(_, _) => G.QuoteList(SourceItems(r))
  }

  function SourceItems(r: Ref): (items: seq<G.Value>)
    requires Literal(r) && (IsPair(r) || IsQuotePair(r))
    ensures items != []
    decreases Size(r), 0
  {
    [Source(r.node.p1)] + if r.node.p2.Null? then [] else SourceItems(r.node.p2)
  }

  // Every literal expression is denoted by a source.
  lemma {:induction false} SourceDenotes(r: Ref)
    requires Literal(r)
    ensures Denotes(Source(r), r)
    decreases Size(r), 1
  {
    match r.node
    case Int(i) => TenDigitsDenote(i);
    case Str(s) => MarkedDenotes(s);
    case Pair(_, _) => SourceItemsDenote(r);
    case QuotePair(_, _) => SourceItemsDenote(r);
    case _ =>
  }

  lemma {:induction false} TenDigitsDenote(i: u32)
    ensures Denotes(G.Number(Decimal.Digits(i, 10)), Num(i))
  {
    hide Decimal.Digits;
    TenthPower();
    assert i % TWO32 == i;
  }

  lemma {:induction false} MarkedDenotes(s: string)
    requires '"' !in s
    ensures Denotes(G.Text("\"" + s + "\""), To(Node.Str(s)))
  {
  }

  lemma {:induction false} SourceItemsDenote(r: Ref)
    requires Literal(r) && (IsPair(r) || IsQuotePair(r))
    ensures if IsPair(r) then DenotesList(SourceItems(r), r) else DenotesQuoteList(SourceItems(r), r)
    decreases Size(r), 0
  {
    SourceDenotes(r.node.p1);
    if r.node.p2.Null? {
      assert SourceItems(r)[1..] == [];
    } else {
      SourceItemsDenote(r.node.p2);
      assert SourceItems(r)[1..] == SourceItems(r.node.p2);
    }
  }

  // So its source is read and converted to it.
  lemma {:induction false} ConvertInvertsSource(r: Ref)
    requires Literal(r)
    ensures G.Readable(Source(r)) && WellSpelled(Source(r)) && ConvertValue(Source(r)) == r
  {
    SourceDenotes(r);
    ConvertsIffDenotes(Source(r), r);
  }

  lemma TenthPower()
    ensures Decimal.Pow10(10) == 10_000_000_000
  {
    assert Decimal.Pow10(5) == 100_000;
  }

  // Any program made of literal expressions has a text; reading the text and
  // converting it gives exactly that program.
  lemma {:induction false} EveryProgramHasText(program: Ref)
    requires IsPair(program) && Literal(program)
    ensures var items := SourceItems(program);
            && G.ReadAll(Lexer.Tokens(TextsOf(items), 0)) == G.Got(items, Lexer.Last(Lexer.Eof))
            && AllWellSpelled(items) && ConvertItems(items, false) == program
  {
    SourceItemsDenote(program);
    ProgramTextDenotes(SourceItems(program), program);
  }
}
