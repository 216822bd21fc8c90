// The tokens of the Lisp reader: usr/lisp/lexer.c.
module Lexer {
  import opened Words

  import Decimal

  // Tokens carry the characters between their start and end pointers. Overrun is
  // what happens to an unclosed string or comment: the scan leaves the text.
  datatype Token =
    | Left
    | Right
    | Path(span: string)
    | Dot
    | QuoteLeft
    | QuoteSymbol(span: string)
    | Int(span: string)
    | Symbol(span: string)
    | Str(span: string)
    | Eof
    | Overrun
  {
    // No token follows this one.
    predicate Stops() {
      Eof? || Overrun?
    }
  }

  datatype Lexed = Lexed(token: Token, end: nat)

  predicate IsSymbolChar(c: char) {
    c != '"' && c != '\'' && c != '.' && c != '(' && c != ')' && ' ' < c <= '~'
  }

  predicate IsSymbolStart(c: char) {
    !Decimal.IsDigit(c) && c != '\'' && IsSymbolChar(c)
  }

  predicate IsPathChar(c: char) {
    IsSymbolChar(c) || c == '.'
  }

  // Character i of a text followed by its terminator.
  function At(text: string, i: nat): char {
    if i < |text| then text[i] else '\0'
  }

  // The first position from i on whose character is not in the class.
  function RunEnd(text: string, i: nat, ok: char -> bool): (e: nat)
    requires i <= |text|
    ensures i <= e <= |text|
    ensures forall k :: i <= k < e ==> ok(text[k])
    ensures e == |text| || !ok(text[e])
    decreases |text| - i
  {
    if i < |text| && ok(text[i]) then RunEnd(text, i + 1, ok) else i
  }

  // The position after the next c from i on.
  function Past(text: string, i: nat, c: char): (e: Option<nat>)
    requires i <= |text|
    ensures e.Some? ==> i < e.value <= |text| && text[e.value - 1] == c
    ensures e.Some? ==> forall k :: i <= k < e.value - 1 ==> text[k] != c
    ensures e.None? ==> forall k :: i <= k < |text| ==> text[k] != c
    decreases |text| - i
  {
    if i == |text| then None else if text[i] == c then Some(i + 1) else Past(text, i + 1, c)
  }

  // A dot, or the path it begins.
  function DotOrPath(text: string, i: nat): (l: Lexed)
    requires i < |text|
    ensures i < l.end <= |text| && !l.token.Stops()
  {
    if At(text, i + 1) == '/' then
      var e := RunEnd(text, i + 1, IsPathChar);
      Lexed(Path(text[i..e]), e)
    else Lexed(Dot, i + 1)
  }

  // A quote opens a list or comes before a symbol; anything else is an error.
  function Quoted(text: string, i: nat): (l: Lexed)
    requires i < |text|
    ensures l.end <= |text| && (l.token.Stops() || i < l.end)
  {
    if At(text, i + 1) == '(' then Lexed(QuoteLeft, i + 2)
    else if IsSymbolStart(At(text, i + 1)) then
      var e := RunEnd(text, i + 1, IsSymbolChar);
      Lexed(QuoteSymbol(text[i + 1..e]), e)
    else Lexed(Eof, i)
  }

  function QuotedString(text: string, i: nat): (l: Lexed)
    requires i < |text|
    ensures l.end <= |text| && (l.token.Stops() || i < l.end)
  {
    match Past(text, i + 1, '"')
    case Some(e) => Lexed(Str(text[i..e]), e)
    case None => Lexed(Overrun, |text|)
  }

  function NumberOrSymbol(text: string, i: nat): (l: Lexed)
    requires i < |text|
    ensures l.end <= |text| && (l.token.Stops() || i < l.end)
  {
    if Decimal.IsDigit(text[i]) then
      var e := RunEnd(text, i + 1, Decimal.IsDigit);
      Lexed(Int(text[i..e]), e)
    else if IsSymbolStart(text[i]) then
      var e := RunEnd(text, i + 1, IsSymbolChar);
      Lexed(Symbol(text[i..e]), e)
    else Lexed(Eof, i)
  }

  // The token that starts at i, where no blank and no comment starts.
  function TokenAt(text: string, i: nat): (l: Lexed)
    requires i <= |text|
    ensures l.end <= |text| && (l.token.Stops() || i < l.end)
  {
    var c := At(text, i);
    if i == |text| || c == '\0' then Lexed(Eof, i)
    else if c == '(' then Lexed(Left, i + 1)
    else if c == ')' then Lexed(Right, i + 1)
    else if c == '.' then DotOrPath(text, i)
    else if c == '\'' then Quoted(text, i)
    else if c == '"' then QuotedString(text, i)
    else NumberOrSymbol(text, i)
  }

  // The next token: blanks, and comments up to the end of their line, are skipped.
  function Lex(text: string, i: nat): (l: Lexed)
    requires i <= |text|
    ensures l.end <= |text| && (l.token.Stops() || i < l.end)
    decreases |text| - i
  {
    var c := At(text, i);
    if c == ' ' || c == '\n' then Lex(text, i + 1)
    else if c == ';' then
      match Past(text, i, '\n')
      case Some(e) => Lex(text, e)
      case None => Lexed(Overrun, |text|)
    else TokenAt(text, i)
  }

  // --- When lexing stops ---

  // The position behind all blanks and comments from i on; None if a comment has no
  // end.
  function Skipped(text: string, i: nat): (p: Option<nat>)
    requires i <= |text|
    ensures p.Some? ==> i <= p.value <= |text|
    decreases |text| - i
  {
    var c := At(text, i);
    if c == ' ' || c == '\n' then Skipped(text, i + 1)
    else if c == ';' then
      match Past(text, i, '\n')
      case Some(e) => Skipped(text, e)
      case None => None
    else Some(i)
  }

  // A quote that comes before neither a list nor a symbol.
  predicate BareQuote(text: string, p: nat) {
    At(text, p) == '\'' && At(text, p + 1) != '(' && !IsSymbolStart(At(text, p + 1))
  }

  // Characters no token, blank or comment starts with.
  predicate Illegal(c: char) {
    !(' ' <= c <= '~') && c != '\n'
  }

  // Lexing reports the end of the text where the text or its terminator ends it, at
  // a bare quote, and at an illegal character: there and nowhere else.
  lemma {:induction false} EofIff(text: string, i: nat)
    requires i <= |text|
    ensures Lex(text, i).token.Eof? <==>
            var p := Skipped(text, i);
            p.Some? && (p.value == |text| || BareQuote(text, p.value) || Illegal(text[p.value]))
    ensures Lex(text, i).token.Eof? ==> Lex(text, i).end == Skipped(text, i).value
    decreases |text| - i
  {
    var c := At(text, i);
    if c == ' ' || c == '\n' {
      EofIff(text, i + 1);
    } else if c == ';' {
      if Past(text, i, '\n').Some? {
        EofIff(text, Past(text, i, '\n').value);
      }
    } else {
      TokenEofIff(text, i);
    }
  }

  lemma TokenEofIff(text: string, i: nat)
    requires i <= |text| && At(text, i) != ' ' && At(text, i) != '\n' && At(text, i) != ';'
    ensures TokenAt(text, i).token.Eof? <==> i == |text| || BareQuote(text, i) || Illegal(text[i])
    ensures TokenAt(text, i).token.Eof? ==> TokenAt(text, i).end == i
  {
    hide RunEnd, Past;
  }

  // So what follows a tab, or a quote before a number, is never looked at.
  lemma EofInTheMiddle()
    ensures Lex("\tb", 0) == Lexed(Eof, 0)
    ensures Lex("'1 b", 0) == Lexed(Eof, 0)
  {
    TokenEofIff("\tb", 0);
    TokenEofIff("'1 b", 0);
  }

  // --- Where tokens end, in terms of characters ---

  // The characters no name contains.
  predicate Delimits(c: char) {
    c == '"' || c == '\'' || c == '.' || c == '(' || c == ')' || c <= ' ' || c > '~'
  }

  // From i to e there is none of them, and one follows unless the text ends; inside a
  // path the dot does not count.
  ghost predicate NameRun(text: string, i: nat, e: nat, path: bool) {
    && i <= e <= |text|
    && (forall k :: i <= k < e ==> !Delimits(text[k]) || (path && text[k] == '.'))
    && (e < |text| ==> Delimits(text[e]) && !(path && text[e] == '.'))
  }

  ghost predicate NumberRun(text: string, i: nat, e: nat) {
    && i <= e <= |text|
    && (forall k :: i <= k < e ==> '0' <= text[k] <= '9')
    && (e < |text| ==> !('0' <= text[e] <= '9'))
  }

  lemma {:induction false} OneRun(text: string, i: nat, e: nat, f: nat, ok: char -> bool)
    requires i <= e <= |text| && i <= f <= |text|
    requires (forall k :: i <= k < e ==> ok(text[k])) && (e < |text| ==> !ok(text[e]))
    requires (forall k :: i <= k < f ==> ok(text[k])) && (f < |text| ==> !ok(text[f]))
    ensures e == f
  {
  }

  // The runs of the lexer's loops are these.
  lemma {:induction false} RunsAreThese(text: string, i: nat, e: nat)
    requires i <= |text| && e <= |text|
    ensures RunEnd(text, i, IsSymbolChar) == e <==> NameRun(text, i, e, false)
    ensures RunEnd(text, i, IsPathChar) == e <==> NameRun(text, i, e, true)
    ensures RunEnd(text, i, Decimal.IsDigit) == e <==> NumberRun(text, i, e)
  {
    if NameRun(text, i, e, false) {
      OneRun(text, i, e, RunEnd(text, i, IsSymbolChar), IsSymbolChar);
    }
    if NameRun(text, i, e, true) {
      OneRun(text, i, e, RunEnd(text, i, IsPathChar), IsPathChar);
    }
    if NumberRun(text, i, e) {
      OneRun(text, i, e, RunEnd(text, i, Decimal.IsDigit), Decimal.IsDigit);
    }
  }

  lemma {:induction false} KindsOfTokens(text: string, i: nat)
    requires i < |text|
    ensures DotOrPath(text, i).token.Path? || DotOrPath(text, i).token.Dot?
    ensures Quoted(text, i).token.QuoteLeft? || Quoted(text, i).token.QuoteSymbol? || Quoted(text, i).token.Eof?
    ensures QuotedString(text, i).token.Str? || QuotedString(text, i).token.Overrun?
    ensures var t := NumberOrSymbol(text, i).token; t.Int? || t.Symbol? || t.Eof?
  {
    hide RunEnd, Past;
  }

  // A name is a symbol that ends exactly at the first delimiter, and digits make a
  // number.
  lemma {:induction false} NamesEndAtDelimiters(text: string, i: nat, e: nat)
    requires i < e <= |text|
    ensures TokenAt(text, i) == Lexed(Symbol(text[i..e]), e) <==>
            NameRun(text, i, e, false) && !('0' <= text[i] <= '9')
    ensures TokenAt(text, i) == Lexed(Int(text[i..e]), e) <==> NumberRun(text, i, e)
  {
    hide RunEnd, NameRun, NumberRun, DotOrPath, Quoted, QuotedString, NumberOrSymbol, IsSymbolStart, IsSymbolChar;
    KindsOfTokens(text, i);
    DefaultTokens(text, i, e);
  }

  lemma {:induction false} DefaultTokens(text: string, i: nat, e: nat)
    requires i < e <= |text|
    ensures NumberOrSymbol(text, i) == Lexed(Symbol(text[i..e]), e) <==>
            NameRun(text, i, e, false) && !('0' <= text[i] <= '9')
    ensures NumberOrSymbol(text, i) == Lexed(Int(text[i..e]), e) <==> NumberRun(text, i, e)
    ensures NameRun(text, i, e, false) || NumberRun(text, i, e) ==>
              var c := text[i]; c > ' ' && c != '(' && c != ')' && c != '.' && c != '\'' && c != '"'
  {
    hide RunEnd;
    RunsAreThese(text, i, e);
    RunsAreThese(text, i + 1, e);
  }

  // So are a quoted name, behind its quote, and a path, in which dots are allowed.
  lemma {:induction false} PathsEndAtDelimiters(text: string, i: nat, e: nat)
    requires i < e <= |text|
    ensures TokenAt(text, i) == Lexed(Path(text[i..e]), e) <==>
            text[i] == '.' && i + 1 < e && text[i + 1] == '/' && NameRun(text, i + 1, e, true)
    ensures TokenAt(text, i) == Lexed(QuoteSymbol(text[i + 1..e]), e) <==>
            text[i] == '\'' && i + 1 < e && !('0' <= text[i + 1] <= '9') && NameRun(text, i + 1, e, false)
  {
    hide RunEnd, NameRun, NumberRun, NumberOrSymbol, QuotedString;
    KindsOfTokens(text, i);
    RunsAreThese(text, i + 1, e);
  }

  // A string ends at the next quotation mark.
  lemma {:induction false} StringsEndAtMarks(text: string, i: nat, e: nat)
    requires i + 1 < e <= |text|
    ensures TokenAt(text, i) == Lexed(Str(text[i..e]), e) <==>
            text[i] == '"' && text[e - 1] == '"' && forall k :: i < k < e - 1 ==> text[k] != '"'
  {
    hide RunEnd, NumberOrSymbol, DotOrPath, Quoted, Past;
    KindsOfTokens(text, i);
    var p := Past(text, i + 1, '"');
    if text[e - 1] == '"' && forall k :: i < k < e - 1 ==> text[k] != '"' {
      assert p == Some(e);
    }
  }

  // Blanks are skipped, and so is a comment up to the end of its line.
  lemma {:induction false} BlanksAreSkipped(text: string, i: nat, e: nat)
    requires i < e <= |text|
    ensures text[i] == ' ' || text[i] == '\n' ==> Lex(text, i) == Lex(text, i + 1)
    ensures text[i] == ';' && text[e - 1] == '\n' && (forall k :: i <= k < e - 1 ==> text[k] != '\n') ==>
              Lex(text, i) == Lex(text, e)
    ensures text[i] != ' ' && text[i] != '\n' && text[i] != ';' ==> Lex(text, i) == TokenAt(text, i)
  {
    hide TokenAt, Past;
  }

  // Any string of characters that are no delimiters, and that begins with neither a
  // digit nor a semicolon, is one symbol before whatever delimiter follows.
  lemma {:induction false} NameIsOneSymbol(name: string, rest: string)
    requires name != "" && !('0' <= name[0] <= '9') && name[0] != ';'
    requires (forall k :: 0 <= k < |name| ==> !Delimits(name[k])) && (rest != "" ==> Delimits(rest[0]))
    ensures Lex(name + rest, 0) == Lexed(Symbol(name), |name|)
  {
    hide TokenAt, Lex;
    var text := name + rest;
    assert text[0..|name|] == name;
    NamesEndAtDelimiters(text, 0, |name|);
    BlanksAreSkipped(text, 0, |name|);
  }

  // --- Streams ---

  // A stream of tokens, up to one that stops.
  datatype Stream = Last(token: Token) | More(token: Token, rest: Stream)

  function Length(s: Stream): nat {
    match s
    case Last(_) => 0
    case More(_, rest) => 1 + Length(rest)
  }

  // All tokens from i on.
  function Tokens(text: string, i: nat): (s: Stream)
    requires i <= |text|
    decreases |text| - i
  {
    var l := Lex(text, i);
    if l.token.Stops() then Last(l.token) else More(l.token, Tokens(text, l.end))
  }

  // The position right behind the nth token from i on.
  function After(text: string, i: nat, n: nat): (e: nat)
    requires i <= |text| && n <= Length(Tokens(text, i))
    ensures e <= |text| && Length(Tokens(text, e)) == Length(Tokens(text, i)) - n
    ensures if n > 0 then e > i else e == i
    decreases n
  {
    if n == 0 then i else After(text, Lex(text, i).end, n - 1)
  }

  lemma {:induction false} AfterAfter(text: string, i: nat, n: nat, m: nat)
    requires i <= |text| && n + m <= Length(Tokens(text, i))
    ensures After(text, After(text, i, n), m) == After(text, i, n + m)
    decreases n
  {
    hide Lex;
    if n > 0 {
      AfterAfter(text, Lex(text, i).end, n - 1, m);
    }
  }

  // --- What tokens look like, and how to write them ---

  predicate AllIn(s: string, ok: char -> bool) {
    forall i :: 0 <= i < |s| ==> ok(s[i])
  }

  // The spans a token of each kind can have.
  predicate Spelled(t: Token) {
    match t
    case Path(s) => |s| >= 2 && s[0] == '.' && s[1] == '/' && AllIn(s, IsPathChar)
    case QuoteSymbol(s) => s != "" && IsSymbolStart(s[0]) && AllIn(s, IsSymbolChar)
    case Symbol(s) => s != "" && IsSymbolStart(s[0]) && s[0] != ';' && AllIn(s, IsSymbolChar)
    case Int(s) => s != "" && AllIn(s, Decimal.IsDigit)
    case Str(s) => |s| >= 2 && s[0] == '"' && s[|s| - 1] == '"' && forall i :: 0 < i < |s| - 1 ==> s[i] != '"'
    case _ => true
  }

  function Written(t: Token): string {
    match t
    case Left => "("
    case Right => ")"
    case Dot => "."
    case QuoteLeft => "'("
    case QuoteSymbol(s) => "'" + s
    case Path(s) => s
    case Int(s) => s
    case Symbol(s) => s
    case Str(s) => s
    case _ => ""
  }

  // A stream written out with a blank after each token.
  function Spaced(s: Stream): string {
    match s
    case Last(_) => ""
    case More(t, rest) => Written(t) + " " + Spaced(rest)
  }

  // Streams a text can stand for.
  predicate Writable(s: Stream) {
    match s
    case Last(t) => t.Eof?
    case More(t, rest) => !t.Stops() && Spelled(t) && Writable(rest)
  }

  // Every token that is lexed is spelled properly.
  lemma {:induction false} LexedIsSpelled(text: string, i: nat)
    requires i <= |text|
    ensures Spelled(Lex(text, i).token)
    decreases |text| - i
  {
    var c := At(text, i);
    if c == ' ' || c == '\n' {
      LexedIsSpelled(text, i + 1);
    } else if c == ';' {
      if Past(text, i, '\n').Some? {
        LexedIsSpelled(text, Past(text, i, '\n').value);
      }
    } else {
      TokenIsSpelled(text, i);
    }
  }

  lemma TokenIsSpelled(text: string, i: nat)
    requires i <= |text| && At(text, i) != ';'
    ensures Spelled(TokenAt(text, i).token)
  {
    hide Spelled, DotOrPath, Quoted, QuotedString, NumberOrSymbol;
    NoSpan();
    if i < |text| {
      if text[i] == '.' {
        PathIsSpelled(text, i);
      } else if text[i] == '\'' {
        QuotedIsSpelled(text, i);
      } else if text[i] == '"' {
        StringIsSpelled(text, i);
      } else {
        NumberIsSpelled(text, i);
      }
    }
  }

  lemma NoSpan()
    ensures Spelled(Eof) && Spelled(Left) && Spelled(Right)
  {
  }

  lemma PathIsSpelled(text: string, i: nat)
    requires i < |text| && text[i] == '.'
    ensures Spelled(DotOrPath(text, i).token)
  {
    hide AllIn, RunEnd;
    RunIsIn(text, i, IsPathChar);
    FirstInRun(text, i + 1, IsPathChar);
  }

  lemma QuotedIsSpelled(text: string, i: nat)
    requires i < |text|
    ensures Spelled(Quoted(text, i).token)
  {
    hide AllIn, RunEnd;
    RunIsIn(text, i, IsSymbolChar);
    FirstInRun(text, i + 1, IsSymbolChar);
  }

  lemma StringIsSpelled(text: string, i: nat)
    requires i < |text| && text[i] == '"'
    ensures Spelled(QuotedString(text, i).token)
  {
    hide Past;
    var e := Past(text, i + 1, '"');
    if e.Some? {
      var s := text[i..e.value];
      assert forall k :: 0 < k < |s| - 1 ==> s[k] == text[i + k];
    }
  }

  lemma NumberIsSpelled(text: string, i: nat)
    requires i < |text| && text[i] != ';'
    ensures Spelled(NumberOrSymbol(text, i).token)
  {
    hide AllIn, RunEnd;
    RunIsIn(text, i, Decimal.IsDigit);
    RunIsIn(text, i, IsSymbolChar);
  }

  lemma FirstInRun(text: string, i: nat, ok: char -> bool)
    requires i <= |text|
    ensures i < |text| && ok(text[i]) ==> RunEnd(text, i, ok) > i
  {
  }

  lemma RunIsIn(text: string, i: nat, ok: char -> bool)
    requires i < |text|
    ensures AllIn(text[i + 1..RunEnd(text, i + 1, ok)], ok)
    ensures ok(text[i]) ==> AllIn(text[i..RunEnd(text, i + 1, ok)], ok)
  {
  }

  // A written token followed by a blank is lexed back.
  lemma WrittenIsLexed(t: Token, rest: string)
    requires !t.Stops() && Spelled(t)
    ensures Lex(Written(t) + " " + rest, 0) == Lexed(t, |Written(t)|)
  {
    var text := Written(t) + " " + rest;
    var n := |Written(t)|;
    assert text[n] == ' ' && text[..n] == Written(t);
    assert forall k :: 0 <= k < n ==> text[k] == Written(t)[k];
    match t
    case Path(s) => RunStops(text, 1, n, IsPathChar);
    case QuoteSymbol(s) => RunStops(text, 1, n, IsSymbolChar);
    case Symbol(s) => RunStops(text, 1, n, IsSymbolChar);
    case Int(s) => RunStops(text, 1, n, Decimal.IsDigit);
    case Str(s) => PastStops(text, 1, n, '"');
    case _ =>
  }

  lemma {:induction false} RunStops(text: string, i: nat, n: nat, ok: char -> bool)
    requires i <= n < |text| && !ok(text[n])
    requires forall k :: i <= k < n ==> ok(text[k])
    ensures RunEnd(text, i, ok) == n
    decreases n - i
  {
    if i < n {
      RunStops(text, i + 1, n, ok);
    }
  }

  lemma {:induction false} PastStops(text: string, i: nat, n: nat, c: char)
    requires i < n <= |text| && text[n - 1] == c
    requires forall k :: i <= k < n - 1 ==> text[k] != c
    ensures Past(text, i, c) == Some(n)
    decreases n - i
  {
    if i < n - 1 {
      PastStops(text, i + 1, n, c);
    }
  }

  // --- Lexing does not look back ---

  // `all` ends in `text`, which starts at position b of it.
  ghost predicate EndsIn(all: string, b: nat, text: string) {
    |all| == b + |text| && all[b..] == text
  }

  lemma AtIsLocal(all: string, b: nat, text: string, i: nat)
    requires EndsIn(all, b, text)
    ensures |all| == b + |text| && At(all, b + i) == At(text, i)
  {
    if i < |text| {
      assert all[b..][i] == all[b + i];
    }
  }

  lemma SliceIsLocal(all: string, b: nat, text: string, i: nat, e: nat)
    requires EndsIn(all, b, text) && i <= e <= |text|
    ensures b + e <= |all| && all[b + i..b + e] == text[i..e]
  {
    assert all[b..][i..e] == all[b + i..b + e];
  }

  lemma {:induction false} RunIsLocal(all: string, b: nat, text: string, i: nat, ok: char -> bool)
    requires EndsIn(all, b, text) && i <= |text|
    ensures RunEnd(all, b + i, ok) == b + RunEnd(text, i, ok)
    decreases |text| - i
  {
    if i < |text| {
      AtIsLocal(all, b, text, i);
      RunIsLocal(all, b, text, i + 1, ok);
    }
  }

  lemma {:induction false} PastIsLocal(all: string, b: nat, text: string, i: nat, c: char)
    requires EndsIn(all, b, text) && i <= |text|
    ensures Past(all, b + i, c) == match Past(text, i, c) case Some(e) => Some(b + e) case None => None
    decreases |text| - i
  {
    if i < |text| {
      AtIsLocal(all, b, text, i);
      PastIsLocal(all, b, text, i + 1, c);
    }
  }

  function Moved(l: Lexed, b: nat): Lexed {
    Lexed(l.token, b + l.end)
  }

  lemma DotIsLocal(all: string, b: nat, text: string, i: nat)
    requires EndsIn(all, b, text) && i < |text|
    ensures DotOrPath(all, b + i) == Moved(DotOrPath(text, i), b)
  {
    hide EndsIn, RunEnd, At;
    AtIsLocal(all, b, text, i + 1);
    RunIsLocal(all, b, text, i + 1, IsPathChar);
    SliceIsLocal(all, b, text, i, RunEnd(text, i + 1, IsPathChar));
  }

  lemma QuotedIsLocal(all: string, b: nat, text: string, i: nat)
    requires EndsIn(all, b, text) && i < |text|
    ensures Quoted(all, b + i) == Moved(Quoted(text, i), b)
  {
    hide EndsIn, RunEnd, At, IsSymbolStart;
    AtIsLocal(all, b, text, i + 1);
    RunIsLocal(all, b, text, i + 1, IsSymbolChar);
    SliceIsLocal(all, b, text, i + 1, RunEnd(text, i + 1, IsSymbolChar));
  }

  lemma StringIsLocal(all: string, b: nat, text: string, i: nat)
    requires EndsIn(all, b, text) && i < |text|
    ensures QuotedString(all, b + i) == Moved(QuotedString(text, i), b)
  {
    hide Past;
    PastIsLocal(all, b, text, i + 1, '"');
    var e := Past(text, i + 1, '"');
    SliceIsLocal(all, b, text, i, if e.Some? then e.value else i);
  }

  lemma NumberIsLocal(all: string, b: nat, text: string, i: nat)
    requires EndsIn(all, b, text) && i < |text|
    ensures NumberOrSymbol(all, b + i) == Moved(NumberOrSymbol(text, i), b)
  {
    hide EndsIn, RunEnd, IsSymbolStart, Decimal.IsDigit;
    AtIsLocal(all, b, text, i);
    RunIsLocal(all, b, text, i + 1, Decimal.IsDigit);
    SliceIsLocal(all, b, text, i, RunEnd(text, i + 1, Decimal.IsDigit));
    RunIsLocal(all, b, text, i + 1, IsSymbolChar);
    SliceIsLocal(all, b, text, i, RunEnd(text, i + 1, IsSymbolChar));
  }

  lemma TokenIsLocal(all: string, b: nat, text: string, i: nat)
    requires EndsIn(all, b, text) && i <= |text|
    ensures TokenAt(all, b + i) == Moved(TokenAt(text, i), b)
  {
    hide DotOrPath, Quoted, QuotedString, NumberOrSymbol;
    AtIsLocal(all, b, text, i);
    if i < |text| {
      DotIsLocal(all, b, text, i);
      QuotedIsLocal(all, b, text, i);
      StringIsLocal(all, b, text, i);
      NumberIsLocal(all, b, text, i);
    }
  }

  lemma {:induction false} LexIsLocal(all: string, b: nat, text: string, i: nat)
    requires EndsIn(all, b, text) && i <= |text|
    ensures Lex(all, b + i) == Moved(Lex(text, i), b)
    decreases |text| - i
  {
    hide EndsIn, Past, TokenAt;
    AtIsLocal(all, b, text, i);
    var c := At(text, i);
    if c == ' ' || c == '\n' {
      LexIsLocal(all, b, text, i + 1);
    } else if c == ';' {
      PastIsLocal(all, b, text, i, '\n');
      if Past(text, i, '\n').Some? {
        LexIsLocal(all, b, text, Past(text, i, '\n').value);
      }
    } else {
      TokenIsLocal(all, b, text, i);
    }
  }

  lemma {:induction false} TokensAreLocal(all: string, b: nat, text: string, i: nat)
    requires EndsIn(all, b, text) && i <= |text|
    ensures Tokens(all, b + i) == Tokens(text, i)
    decreases |text| - i
  {
    hide Lex, EndsIn;
    LexIsLocal(all, b, text, i);
    if !Lex(text, i).token.Stops() {
      TokensAreLocal(all, b, text, Lex(text, i).end);
    }
  }

  // Lexing inverts writing: any stream of properly spelled tokens, written out
  // with blanks in between, is read back exactly.
  lemma {:induction false} LexInvertsSpaced(s: Stream)
    requires Writable(s)
    ensures Tokens(Spaced(s), 0) == s
  {
    if s.More? {
      LexInvertsSpaced(s.rest);
      FirstWord(s.token, Spaced(s.rest));
    }
  }

  lemma FirstWord(t: Token, rest: string)
    requires !t.Stops() && Spelled(t)
    ensures Tokens(Written(t) + " " + rest, 0) == More(t, Tokens(rest, 0))
  {
    var word := Written(t);
    var text := word + " " + rest;
    WrittenIsLexed(t, rest);
    assert EndsIn(text, |word| + 1, rest);
    TokensAreLocal(text, |word| + 1, rest, 0);
    SkipBlank(text, |word|);
  }

  lemma SkipBlank(text: string, i: nat)
    requires i < |text| && text[i] == ' '
    ensures Tokens(text, i) == Tokens(text, i + 1)
    ensures forall n: nat :: 0 < n <= Length(Tokens(text, i)) ==> After(text, i, n) == After(text, i + 1, n)
  {
    hide TokenAt;
    forall n: nat | 0 < n <= Length(Tokens(text, i))
      ensures After(text, i, n) == After(text, i + 1, n)
    {
    }
  }

  lemma {:induction false} AfterIsLocal(all: string, b: nat, text: string, i: nat, n: nat)
    requires EndsIn(all, b, text) && i <= |text| && n <= Length(Tokens(text, i))
    ensures n <= Length(Tokens(all, b + i)) && After(all, b + i, n) == b + After(text, i, n)
    decreases n
  {
    hide Lex, EndsIn;
    TokensAreLocal(all, b, text, i);
    if n > 0 {
      LexIsLocal(all, b, text, i);
      AfterIsLocal(all, b, text, Lex(text, i).end, n - 1);
    }
  }

  // The last token of a stream written out ends right before the last blank.
  lemma {:induction false} LastTokenEnds(s: Stream)
    requires Writable(s) && s.More?
    ensures Length(Tokens(Spaced(s), 0)) == Length(s)
    ensures Spaced(s) != "" && After(Spaced(s), 0, Length(s)) == |Spaced(s)| - 1
    ensures Spaced(s)[|Spaced(s)| - 1] == ' '
  {
    hide Tokens, After, Written, Spelled;
    LexInvertsSpaced(s);
    LexInvertsSpaced(s.rest);
    AfterFirstWord(s.token, Spaced(s.rest), Length(s.rest));
    if s.rest.More? {
      LastTokenEnds(s.rest);
    }
  }

  // Where a token ends in a text that begins with a written one.
  lemma AfterFirstWord(t: Token, rest: string, n: nat)
    requires !t.Stops() && Spelled(t) && n <= Length(Tokens(rest, 0))
    ensures var text, b := Written(t) + " " + rest, |Written(t)| + 1;
            && n < Length(Tokens(text, 0))
            && After(text, 0, n + 1) == if n == 0 then b - 1 else b + After(rest, 0, n)
  {
    hide Lex, Written, Spelled;
    var word := Written(t);
    var text := word + " " + rest;
    WrittenIsLexed(t, rest);
    assert EndsIn(text, |word| + 1, rest);
    SkipBlank(text, |word|);
    AfterIsLocal(text, |word| + 1, rest, 0, n);
  }
}
