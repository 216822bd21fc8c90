// What the reader promises about texts: it gives back what was written, it only
// fails where nothing can be read, and it always gets on.
module ReaderLaws {
  import opened Lexer
  import opened Grammar
  import opened Reader

  // Values whose names, numbers and strings are spelled as the lexer would take them.
  predicate WellSpelled(v: Value)
    decreases v
  {
    match v
    case List(items) => AllWellSpelled(items)
    case PairOf(a, b) => WellSpelled(a) && WellSpelled(b)
    case QuoteList(items) => AllWellSpelled(items)
    case QuoteName(s) => Spelled(QuoteSymbol(s))
    case Number(s) => Spelled(Token.Int(s))
    case Name(s) => Spelled(Symbol(s))
    case PathName(s) => Spelled(Path(s))
    case Text(s) => Spelled(Token.Str(s))
  }

  predicate AllWellSpelled(items: seq<Value>)
    decreases items
  {
    items == [] || (WellSpelled(items[0]) && AllWellSpelled(items[1..]))
  }

  // Values as text, with blanks in between.
  function Render(items: seq<Value>): string {
    Spaced(EmitAll(items, Last(Eof)))
  }

  // The same, character by character.
  function TextOf(v: Value): string
    decreases v
  {
    match v
    case List(items) => "( " + TextsOf(items) + ") "
    case QuoteList(items) => "'( " + TextsOf(items) + ") "
    case PairOf(a, b) => "( " + TextOf(a) + ". " + TextOf(b) + ") "
    case QuoteName(s) => "'" + s + " "
    case Number(s) => s + " "
    case Name(s) => s + " "
    case PathName(s) => s + " "
    case Text(s) => s + " "
  }

  function TextsOf(items: seq<Value>): string
    decreases items
  {
    if items == [] then "" else TextOf(items[0]) + TextsOf(items[1..])
  }

  lemma {:induction false} SpacedMore(t: Token, rest: Stream)
    ensures Spaced(More(t, rest)) == Written(t) + " " + Spaced(rest)
  {
  }

  lemma {:induction false} Joined(a: string, b: string, c: string)
    ensures a + (b + c) == a + b + c
  {
  }

  lemma {:induction false} Bracketed(open: string, inner: string, rest: string)
    ensures open + " " + (inner + (")" + " " + rest)) == open + " " + inner + ") " + rest
  {
  }

  lemma {:induction false} Dotted(a: string, b: string, rest: string)
    ensures "(" + " " + (a + ("." + " " + (b + (")" + " " + rest)))) == "( " + a + ". " + b + ") " + rest
  {
    Bracketed("(", a + ("." + " " + b), rest);
    assert a + ("." + " " + (b + (")" + " " + rest))) == a + ("." + " " + b) + (")" + " " + rest);
    assert "(" + " " + (a + ("." + " " + b)) == "( " + a + ". " + b;
  }

  lemma {:induction false} SpacedText(v: Value, k: Stream)
    ensures Spaced(Emit(v, k)) == TextOf(v) + Spaced(k)
    decreases v
  {
    hide Spaced;
    match v
    case List(items) =>
      SpacedMore(Left, EmitAll(items, More(Right, k)));
      SpacedTexts(items, More(Right, k));
      SpacedMore(Right, k);
      Bracketed("(", TextsOf(items), Spaced(k));
      assert "(" + " " == "( ";
    case QuoteList(items) =>
      SpacedMore(QuoteLeft, EmitAll(items, More(Right, k)));
      SpacedTexts(items, More(Right, k));
      SpacedMore(Right, k);
      Bracketed("'(", TextsOf(items), Spaced(k));
      assert "'(" + " " == "'( ";
    case PairOf(a, b) =>
      var last := More(Right, k);
      var second := More(Dot, Emit(b, last));
      SpacedMore(Left, Emit(a, second));
      SpacedText(a, second);
      SpacedMore(Dot, Emit(b, last));
      SpacedText(b, last);
      SpacedMore(Right, k);
      Dotted(TextOf(a), TextOf(b), Spaced(k));
    case QuoteName(s) => SpacedMore(QuoteSymbol(s), k);
    case Number(s) => SpacedMore(Token.Int(s), k);
    case Name(s) => SpacedMore(Symbol(s), k);
    case PathName(s) => SpacedMore(Path(s), k);
    case Text(s) => SpacedMore(Token.Str(s), k);
  }

  lemma {:induction false} SpacedTexts(items: seq<Value>, k: Stream)
    ensures Spaced(EmitAll(items, k)) == TextsOf(items) + Spaced(k)
    decreases items
  {
    hide Spaced, TextOf, Emit;
    if items == [] {
      assert "" + Spaced(k) == Spaced(k);
    } else {
      SpacedText(items[0], EmitAll(items[1..], k));
      SpacedTexts(items[1..], k);
      Joined(TextOf(items[0]), TextsOf(items[1..]), Spaced(k));
    }
  }

  lemma {:induction false} OneText(v: Value)
    ensures TextsOf([v]) == TextOf(v) && AllWellSpelled([v]) == WellSpelled(v)
  {
    var rest := [v][1..];
    assert rest == [] && TextsOf(rest) == "" && AllWellSpelled(rest);
  }

  lemma {:induction false} RenderedText(items: seq<Value>)
    ensures Render(items) == TextsOf(items)
  {
    SpacedTexts(items, Last(Eof));
    assert TextsOf(items) + "" == TextsOf(items);
  }

  // The streams texts can stand for, cut off anywhere.
  predicate SpelledThroughout(s: Stream) {
    match s
    case Last(t) => true
    case More(t, rest) => !t.Stops() && Spelled(t) && SpelledThroughout(rest)
  }

  lemma {:induction false} TokensAreSpelled(text: string, i: nat)
    requires i <= |text|
    ensures SpelledThroughout(Tokens(text, i))
    decreases |text| - i
  {
    LexedIsSpelled(text, i);
    if !Lex(text, i).token.Stops() {
      TokensAreSpelled(text, Lex(text, i).end);
    }
  }

  lemma {:induction false} EmitSpelling(v: Value, k: Stream)
    ensures SpelledThroughout(Emit(v, k)) <==> WellSpelled(v) && SpelledThroughout(k)
    ensures Writable(k) && WellSpelled(v) ==> Writable(Emit(v, k))
    decreases v
  {
    match v
    case List(items) => EmitAllSpelling(items, More(Right, k));
    case QuoteList(items) => EmitAllSpelling(items, More(Right, k));
    case PairOf(a, b) =>
      EmitSpelling(a, More(Dot, Emit(b, More(Right, k))));
      EmitSpelling(b, More(Right, k));
    case _ =>
  }

  lemma {:induction false} EmitAllSpelling(items: seq<Value>, k: Stream)
    ensures SpelledThroughout(EmitAll(items, k)) <==> AllWellSpelled(items) && SpelledThroughout(k)
    ensures Writable(k) && AllWellSpelled(items) ==> Writable(EmitAll(items, k))
    decreases items
  {
    if items != [] {
      EmitSpelling(items[0], EmitAll(items[1..], k));
      EmitAllSpelling(items[1..], k);
    }
  }

  // Reading what was rendered gives the values back and leaves no token unread.
  lemma ReadInvertsRender(items: seq<Value>)
    requires items != [] && AllReadable(items) && AllWellSpelled(items)
    ensures ReadAll(Tokens(Render(items), 0)) == Got(items, Last(Eof))
  {
    EmitAllSpelling(items, Last(Eof));
    LexInvertsSpaced(EmitAll(items, Last(Eof)));
    ReadAllIsComplete(items, Last(Eof));
  }

  // The values that come out of a text are exactly those that can be rendered, and
  // the tokens between the old and the new cursor are those of the values.
  lemma WhatIsRead(text: string, i: nat)
    requires i <= |text| && ReadAll(Tokens(text, i)).Got?
    ensures var r := ReadAll(Tokens(text, i));
            && AllReadable(r.value) && AllWellSpelled(r.value)
            && Tokens(text, i) == EmitAll(r.value, r.rest)
            && ReadAll(Tokens(Render(r.value), 0)) == Got(r.value, Last(Eof))
  {
    var r := ReadAll(Tokens(text, i));
    ReadAllIsSound(Tokens(text, i));
    TokensAreSpelled(text, i);
    EmitAllSpelling(r.value, r.rest);
    ReadInvertsRender(r.value);
  }

  function Ending(s: Stream): Token {
    match s
    case Last(t) => t
    case More(_, rest) => Ending(rest)
  }

  // A rest that was read up to ends where the whole stream ends.
  ghost predicate Suffix(s: Stream, rest: Stream) {
    Ending(rest) == Ending(s) && SpelledThroughout(rest)
  }

  // The cursor leaves the text only if a string or a comment is not closed.
  lemma {:induction false} CutMeansUnclosed(s: Stream)
    requires SpelledThroughout(s)
    ensures Read(s).Cut? ==> Ending(s).Overrun?
    ensures Read(s).Got? ==> Suffix(s, Read(s).rest)
    decreases Length(s), 0
  {
    if s.More? && (s.token.Left? || s.token.QuoteLeft?) {
      AllCutMeansUnclosed(s.rest);
      var all := ReadAll(s.rest);
      if all.Got? && all.rest.More? {
        assert Suffix(s, all.rest.rest);
        SecondCutMeansUnclosed(all.value[0], all.rest.rest);
      }
    }
  }

  lemma {:induction false} SecondCutMeansUnclosed(first: Value, s: Stream)
    requires SpelledThroughout(s)
    ensures ReadSecond(first, s).Cut? ==> Ending(s).Overrun?
    ensures ReadSecond(first, s).Got? ==> Suffix(s, ReadSecond(first, s).rest)
    decreases Length(s), 1
  {
    CutMeansUnclosed(s);
    var second := Read(s);
    if second.Got? && second.rest.More? {
      assert Suffix(s, second.rest.rest) && !second.rest.token.Overrun?;
    }
  }

  lemma {:induction false} AllCutMeansUnclosed(s: Stream)
    requires SpelledThroughout(s)
    ensures ReadAll(s).Cut? ==> Ending(s).Overrun?
    ensures ReadAll(s).Got? ==> Suffix(s, ReadAll(s).rest)
    decreases Length(s), 1
  {
    CutMeansUnclosed(s);
    if Read(s).Got? {
      AllCutMeansUnclosed(Read(s).rest);
    }
  }

  // The parser itself on a rendered program: it returns the program, and nothing but
  // blanks is left behind the cursor.
  method ParseRendered(items: seq<Value>) returns (out: Parsed<seq<Value>>, pos: nat)
    requires items != [] && AllReadable(items) && AllWellSpelled(items)
    ensures out == Found(items)
    ensures pos <= |Render(items)| && forall k :: pos <= k < |Render(items)| ==> Render(items)[k] == ' '
  {
    hide Render, After, Lex, Tokens, EmitAll, AllReadable, AllWellSpelled, Reaches, ReadAll;
    var cursor := new Cursor(Render(items));
    ReadInvertsRender(items);
    out := cursor.Parse();
    pos := cursor.pos;
    OnlyBlanksLeft(items, pos);
  }

  // Behind the last token of a rendered program there is one blank.
  lemma OnlyBlanksLeft(items: seq<Value>, pos: nat)
    requires items != [] && AllWellSpelled(items)
    requires Reaches(Render(items), 0, pos) && Tokens(Render(items), pos) == Last(Eof)
    ensures forall k :: pos <= k < |Render(items)| ==> Render(items)[k] == ' '
  {
    hide Reaches, After, Tokens, Spaced, EmitAll;
    EmitAllSpelling(items, Last(Eof));
    StartsWithToken(items, Last(Eof));
    WholeStreamRead(EmitAll(items, Last(Eof)), Render(items), pos);
  }

  lemma WholeStreamRead(s: Stream, text: string, pos: nat)
    requires Writable(s) && s.More? && text == Spaced(s)
    requires Reaches(text, 0, pos) && Tokens(text, pos) == Last(Eof)
    ensures forall k :: pos <= k < |text| ==> text[k] == ' '
  {
    hide After, Tokens, Spaced, Writable;
    LastTokenEnds(s);
    assert Length(Tokens(text, pos)) == 0;
  }

  lemma StartsWithToken(items: seq<Value>, k: Stream)
    requires items != []
    ensures EmitAll(items, k).More?
  {
  }

  // On success the cursor has moved on; on failure it is where it was, and no value
  // at all is spelled there.
  method ParseMovesOn(cursor: Cursor) returns (out: Parsed<seq<Value>>)
    requires cursor.Valid()
    modifies cursor`pos
    ensures cursor.Valid()
    ensures out.Found? ==>
              && old(cursor.pos) < cursor.pos
              && Tokens(cursor.text, old(cursor.pos)) == EmitAll(out.value, Tokens(cursor.text, cursor.pos))
    ensures out.Null? ==>
              && cursor.pos == old(cursor.pos)
              && forall v, k :: Readable(v) ==> Tokens(cursor.text, cursor.pos) != Emit(v, k)
    ensures out.OutOfText? ==> Ending(Tokens(cursor.text, old(cursor.pos))).Overrun?
  {
    var s := Tokens(cursor.text, cursor.pos);
    out := cursor.Parse();
    TokensAreSpelled(cursor.text, old(cursor.pos));
    AllCutMeansUnclosed(s);
    if ReadAll(s).Got? {
      ReadAllIsSound(s);
    } else if ReadAll(s).Fail? {
      forall v, k | Readable(v)
        ensures s != Emit(v, k)
      {
        ReadIffEmitted(s, v, k);
      }
    }
  }
}
