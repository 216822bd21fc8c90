// The reader itself: lex of usr/lisp/lexer.c and the backtracking parser of
// usr/lisp/parser.c, which all move one cursor over the text.
module Reader {
  import opened Lexer
  import opened Grammar

  // A parse function returns its result or a null pointer; Overrun means that the
  // cursor left the text, after which nothing is promised.
  datatype Parsed<+T> = Found(value: T) | Null | OutOfText

  // The tokens parse_quote_symbol, parse_number, parse_symbol, parse_path and
  // parse_string look for.
  datatype Kind = QuoteSymbolKind | IntKind | SymbolKind | PathKind | StringKind

  predicate Fits(t: Token, kind: Kind) {
    match kind
    case QuoteSymbolKind => t.QuoteSymbol?
    case IntKind => t.Int?
    case SymbolKind => t.Symbol?
    case PathKind => t.Path?
    case StringKind => t.Str?
  }

  function Leaf(span: string, kind: Kind): Value {
    match kind
    case QuoteSymbolKind => QuoteName(span)
    case IntKind => Number(span)
    case SymbolKind => Name(span)
    case PathKind => PathName(span)
    case StringKind => Text(span)
  }

  // --- What each alternative of parse_value would read on its own ---

  function ReadSpan(s: Stream, kind: Kind): Reading<string> {
    if s.token.Overrun? then Cut
    else if s.More? && Fits(s.token, kind) then Got(s.token.span, s.rest)
    else Fail
  }

  // opener is Left for a list, QuoteLeft for a quoted list.
  function ReadList(s: Stream, opener: Token): Reading<seq<Value>> {
    if s.token.Overrun? then Cut
    else if s.More? && s.token == opener then
      match ReadAll(s.rest)
      case Cut => Cut
      case Fail => Fail
      case Got(items, behind) => if behind.token.Right? && behind.More? then Got(items, behind.rest) else Fail
    else Fail
  }

  function ReadPair(s: Stream): Reading<Value> {
    if s.token.Overrun? then Cut
    else if s.More? && s.token.Left? then
      match Read(s.rest)
      case Cut => Cut
      case Fail => Fail
      case Got(first, behind) =>
        if behind.token.Overrun? then Cut
        else if behind.More? && behind.token.Dot? then ReadSecond(first, behind.rest)
        else Fail
    else Fail
  }

  function OrElse<T>(r: Reading<T>, other: Reading<T>): Reading<T> {
    if r.Fail? then other else r
  }

  function AsLeaf(r: Reading<string>, kind: Kind): Reading<Value> {
    match r
    case Got(span, rest) => Got(Leaf(span, kind), rest)
    case Fail => Fail
    case Cut => Cut
  }

  function AsList(r: Reading<seq<Value>>, quoted: bool): Reading<Value> {
    match r
    case Got(items, rest) => Got(if quoted then QuoteList(items) else List(items), rest)
    case Fail => Fail
    case Cut => Cut
  }

  function ReadLeaf(s: Stream): Reading<Value> {
    OrElse(AsLeaf(ReadSpan(s, QuoteSymbolKind), QuoteSymbolKind),
           OrElse(AsLeaf(ReadSpan(s, IntKind), IntKind),
                  OrElse(AsLeaf(ReadSpan(s, SymbolKind), SymbolKind),
                         OrElse(AsLeaf(ReadSpan(s, PathKind), PathKind),
                                AsLeaf(ReadSpan(s, StringKind), StringKind)))))
  }

  function TryAll(s: Stream): Reading<Value> {
    OrElse(AsList(ReadList(s, Left), false),
           OrElse(ReadPair(s),
                  OrElse(AsList(ReadList(s, QuoteLeft), true),
                         ReadLeaf(s))))
  }

  // Trying one alternative after the other, each from the start, reads what
  // looking one token ahead reads: a pair is read only after the list parser has
  // given up on it.
  lemma BacktrackingReads(s: Stream)
    ensures TryAll(s) == Read(s)
  {
    if s.More? && s.token.Left? {
      PairAfterList(s);
    }
  }

  lemma StartOf(s: Stream)
    ensures s.token.Dot? ==> ReadAll(s) == Fail
    ensures s.token.Overrun? ==> ReadAll(s) == Cut
  {
  }

  lemma NoLeaf(s: Stream)
    requires s.More? && s.token.Left?
    ensures ReadLeaf(s) == Fail
  {
  }

  lemma PairAfterList(s: Stream)
    requires s.More? && s.token.Left?
    ensures TryAll(s) == Read(s)
  {
    hide ReadLeaf;
    if Read(s.rest).Got? {
      StartOf(Read(s.rest).rest);
    }
    NoLeaf(s);
  }

  // --- The cursor ---

  // q is behind some whole number of tokens from p.
  ghost predicate Reaches(text: string, p: nat, q: nat) {
    && p <= |text| && q <= |text|
    && Length(Tokens(text, q)) <= Length(Tokens(text, p))
    && After(text, p, Length(Tokens(text, p)) - Length(Tokens(text, q))) == q
  }

  lemma ReachesByLex(text: string, p: nat)
    requires p <= |text|
    ensures var l := Lex(text, p);
            if l.token.Stops() then Tokens(text, p) == Last(l.token)
            else Tokens(text, p) == More(l.token, Tokens(text, l.end)) && Reaches(text, p, l.end)
    ensures Reaches(text, p, p)
  {
    hide Lex;
    var l := Lex(text, p);
    if !l.token.Stops() {
      assert After(text, p, 1) == After(text, l.end, 0);
    }
  }

  lemma ReachesFurther(text: string, p: nat, q: nat, r: nat)
    requires Reaches(text, p, q) && Reaches(text, q, r)
    ensures Reaches(text, p, r) && p <= q <= r
  {
    hide After, Tokens;
    AfterAfter(text, p, Length(Tokens(text, p)) - Length(Tokens(text, q)),
               Length(Tokens(text, q)) - Length(Tokens(text, r)));
  }

  // What a parse function does to the cursor: behind what it has read, and back
  // where it was when it fails.
  ghost predicate Reads<T>(text: string, p: nat, r: Reading<T>, q: nat, out: Parsed<T>) {
    && p <= |text| && q <= |text|
    && match r
       case Got(v, rest) => out == Found(v) && Reaches(text, p, q) && Tokens(text, q) == rest
       case Fail => out == Null && q == p
       case Cut => out == OutOfText
  }

  class Cursor {
    const text: string
    var pos: nat

    ghost predicate Valid()
      reads this
    {
      pos <= |text|
    }

    constructor (text: string)
      ensures Valid() && this.text == text && pos == 0
    {
      this.text := text;
      pos := 0;
    }

    // Steps on while the next character belongs to the class, then past the last.
    method Run(ok: char -> bool)
      requires pos < |text| && !ok('\0')
      modifies this`pos
      ensures Valid() && pos == RunEnd(text, old(pos) + 1, ok)
    {
      while ok(At(text, pos + 1))
        invariant pos < |text| && RunEnd(text, pos + 1, ok) == RunEnd(text, old(pos) + 1, ok)
        decreases |text| - pos
      {
        pos := pos + 1;
      }
      pos := pos + 1;
    }

    // Scans to the next c and past it; false when there is none.
    method Find(c: char) returns (found: bool)
      requires Valid()
      modifies this`pos
      ensures Valid()
      ensures match Past(text, old(pos), c)
              case Some(e) => found && pos == e
              case None => !found && pos == |text|
    {
      while pos < |text| && text[pos] != c
        invariant Valid() && Past(text, pos, c) == Past(text, old(pos), c)
        decreases |text| - pos
      {
        pos := pos + 1;
      }
      found := pos < |text|;
      if found {
        pos := pos + 1;
      }
    }

    // lex
    method NextToken() returns (token: Token)
      requires Valid()
      modifies this`pos
      ensures Valid() && Lexed(token, pos) == Lex(text, old(pos))
    {
      hide TokenAt, Past;
      while At(text, pos) == ' ' || At(text, pos) == '\n' || At(text, pos) == ';'
        invariant Valid() && Lex(text, pos) == Lex(text, old(pos))
        decreases |text| - pos
      {
        if At(text, pos) == ';' {
          var closed := Find('\n');
          if !closed {
            return Overrun;
          }
        } else {
          pos := pos + 1;
        }
      }
      token := Here();
    }

    // The switch of lex, once blanks and comments are behind.
    method Here() returns (token: Token)
      requires Valid()
      modifies this`pos
      ensures Valid() && Lexed(token, pos) == TokenAt(text, old(pos))
    {
      hide RunEnd, Past;
      var start := pos;
      var c := At(text, pos);
      if pos == |text| || c == '\0' {
        token := Eof;
      } else if c == '(' {
        pos := pos + 1;
        token := Left;
      } else if c == ')' {
        pos := pos + 1;
        token := Right;
      } else if c == '.' {
        if At(text, pos + 1) == '/' {
          Run(IsPathChar);
          token := Path(text[start..pos]);
        } else {
          pos := pos + 1;
          token := Dot;
        }
      } else if c == '\'' {
        if At(text, pos + 1) == '(' {
          pos := pos + 2;
          token := QuoteLeft;
        } else if IsSymbolStart(At(text, pos + 1)) {
          Run(IsSymbolChar);
          token := QuoteSymbol(text[start + 1..pos]);
        } else {
          token := Eof;
        }
      } else if c == '"' {
        pos := pos + 1;
        var closed := Find('"');
        token := if closed then Token.Str(text[start..pos]) else Overrun;
      } else if Decimal.IsDigit(c) {
        Run(Decimal.IsDigit);
        token := Token.Int(text[start..pos]);
      } else if IsSymbolStart(c) {
        Run(IsSymbolChar);
        token := Symbol(text[start..pos]);
      } else {
        token := Eof;
      }
    }

    // parse_quote_symbol, parse_symbol, parse_number, parse_path, parse_string
    method ParseSpan(kind: Kind) returns (out: Parsed<string>)
      requires Valid()
      modifies this`pos
      ensures Valid() && Reads(text, old(pos), ReadSpan(Tokens(text, old(pos)), kind), pos, out)
    {
      hide Lex, Tokens, After;
      var start := pos;
      ReachesByLex(text, pos);
      var token := NextToken();
      if token.Overrun? {
        return OutOfText;
      }
      if !Fits(token, kind) {
        pos := start;
        return Null;
      }
      out := Found(token.span);
    }

    // parse_list, parse_quote_list
    method ParseList(opener: Token) returns (out: Parsed<seq<Value>>)
      requires Valid() && (opener.Left? || opener.QuoteLeft?)
      modifies this`pos
      ensures Valid() && Reads(text, old(pos), ReadList(Tokens(text, old(pos)), opener), pos, out)
      decreases |text| - pos, 0
    {
      hide Lex, Tokens, After, Reaches, Read, ReadAll;
      var start := pos;
      ReachesByLex(text, pos);
      var token := NextToken();
      if token.Overrun? {
        return OutOfText;
      }
      if token != opener {
        pos := start;
        return Null;
      }
      ghost var inside := pos;
      var contents := ParseListContents();
      if contents.OutOfText? {
        return OutOfText;
      }
      if contents.Null? {
        pos := start;
        return Null;
      }
      ReachesFurther(text, start, inside, pos);
      ReachesByLex(text, pos);
      ghost var behind := pos;
      token := NextToken();
      if !token.Right? {
        pos := start;
        return Null;
      }
      ReachesFurther(text, start, behind, pos);
      out := contents;
    }

    method ParsePair() returns (out: Parsed<Value>)
      requires Valid()
      modifies this`pos
      ensures Valid() && Reads(text, old(pos), ReadPair(Tokens(text, old(pos))), pos, out)
      decreases |text| - pos, 0
    {
      hide Lex, Tokens, After, Reaches, Read;
      var start := pos;
      ReachesByLex(text, pos);
      var token := NextToken();
      if token.Overrun? {
        return OutOfText;
      }
      if !token.Left? {
        pos := start;
        return Null;
      }
      ghost var p1 := pos;
      var first := ParseValue();
      if first.OutOfText? {
        return OutOfText;
      }
      if first.Null? {
        pos := start;
        return Null;
      }
      ReachesFurther(text, start, p1, pos);
      ReachesByLex(text, pos);
      ghost var p2 := pos;
      token := NextToken();
      if token.Overrun? {
        return OutOfText;
      }
      if !token.Dot? {
        pos := start;
        return Null;
      }
      ReachesFurther(text, start, p2, pos);
      ghost var p3 := pos;
      var second := ParseValue();
      if second.OutOfText? {
        return OutOfText;
      }
      if second.Null? {
        pos := start;
        return Null;
      }
      ReachesFurther(text, start, p3, pos);
      ReachesByLex(text, pos);
      ghost var p4 := pos;
      token := NextToken();
      if token.Overrun? {
        return OutOfText;
      }
      if !token.Right? {
        pos := start;
        return Null;
      }
      ReachesFurther(text, start, p4, pos);
      out := Found(PairOf(first.value, second.value));
    }

    method ParseValue() returns (out: Parsed<Value>)
      requires Valid()
      modifies this`pos
      ensures Valid() && Reads(text, old(pos), Read(Tokens(text, old(pos))), pos, out)
      decreases |text| - pos, 1
    {
      hide Lex, Tokens, After, Reaches, Read, ReadList, ReadPair, ReadSpan;
      BacktrackingReads(Tokens(text, pos));
      var list := ParseList(Left);
      if !list.Null? {
        return if list.Found? then Found(List(list.value)) else OutOfText;
      }
      var pair := ParsePair();
      if !pair.Null? {
        return pair;
      }
      list := ParseList(QuoteLeft);
      if !list.Null? {
        return if list.Found? then Found(QuoteList(list.value)) else OutOfText;
      }
      out := ParseLeaf();
    }

    // The rest of parse_value: the alternatives of one token each.
    method ParseLeaf() returns (out: Parsed<Value>)
      requires Valid()
      modifies this`pos
      ensures Valid() && Reads(text, old(pos), ReadLeaf(Tokens(text, old(pos))), pos, out)
    {
      hide Lex, Tokens, After, Reaches, ReadSpan;
      var span := ParseSpan(QuoteSymbolKind);
      if !span.Null? {
        return if span.Found? then Found(QuoteName(span.value)) else OutOfText;
      }
      span := ParseSpan(IntKind);
      if !span.Null? {
        return if span.Found? then Found(Number(span.value)) else OutOfText;
      }
      span := ParseSpan(SymbolKind);
      if !span.Null? {
        return if span.Found? then Found(Name(span.value)) else OutOfText;
      }
      span := ParseSpan(PathKind);
      if !span.Null? {
        return if span.Found? then Found(PathName(span.value)) else OutOfText;
      }
      span := ParseSpan(StringKind);
      if !span.Null? {
        return if span.Found? then Found(Text(span.value)) else OutOfText;
      }
      out := Null;
    }

    method ParseListContents() returns (out: Parsed<seq<Value>>)
      requires Valid()
      modifies this`pos
      ensures Valid() && Reads(text, old(pos), ReadAll(Tokens(text, old(pos))), pos, out)
      decreases |text| - pos, 2
    {
      hide Lex, Tokens, After, Read;
      ghost var p := pos;
      var value := ParseValue();
      if !value.Found? {
        return if value.Null? then Null else OutOfText;
      }
      ghost var q := pos;
      var next := ParseListContents();
      if next.OutOfText? {
        return OutOfText;
      }
      if next.Found? {
        ReachesFurther(text, p, q, pos);
        return Found([value.value] + next.value);
      }
      out := Found([value.value]);
    }

    // parse
    method Parse() returns (out: Parsed<seq<Value>>)
      requires Valid()
      modifies this`pos
      ensures Valid() && Reads(text, old(pos), ReadAll(Tokens(text, old(pos))), pos, out)
    {
      out := ParseListContents();
    }
  }
}
