// The marking of a Wordle guess: the two passes in main of usr/wordle.c, for words of
// any length.
module Wordle {
  datatype Colour = Green | Yellow | Grey

  function Occurrences(word: string, c: char): nat {
    if word == "" then 0 else Occurrences(word[..|word| - 1], c) + if word[|word| - 1] == c then 1 else 0
  }

  // How many of the letter's positions are flagged.
  function Flagged(word: string, flags: seq<bool>, c: char): (n: nat)
    requires |flags| == |word|
    ensures n <= Occurrences(word, c)
  {
    if word == "" then 0 else
      var k := |word| - 1;
      Flagged(word[..k], flags[..k], c) + if word[k] == c && flags[k] then 1 else 0
  }

  function Flags(colours: seq<Colour>): (flags: seq<bool>)
    ensures |flags| == |colours|
    ensures forall i :: 0 <= i < |flags| ==> flags[i] == (colours[i] != Grey)
  {
    seq(|colours|, i requires 0 <= i < |colours| => colours[i] != Grey)
  }

  // How many positions of the guess show the letter in colour.
  function Coloured(guess: string, colours: seq<Colour>, c: char): nat
    requires |colours| == |guess|
  {
    Flagged(guess, Flags(colours), c)
  }

  // Greens of the letter from position i on.
  function GreensFrom(guess: string, answer: string, i: nat, c: char): nat
    requires |guess| == |answer| && i <= |guess|
    decreases |guess| - i
  {
    if i == |guess| then 0
    else (if guess[i] == answer[i] == c then 1 else 0) + GreensFrom(guess, answer, i + 1, c)
  }

  function Min(a: nat, b: nat): nat {
    if a < b then a else b
  }

  lemma {:induction false} FlagOne(word: string, flags: seq<bool>, j: nat, c: char)
    requires |flags| == |word| && j < |word| && !flags[j]
    ensures Flagged(word, flags[j := true], c) == Flagged(word, flags, c) + if word[j] == c then 1 else 0
  {
    var k := |word| - 1;
    if j < k {
      FlagOne(word[..k], flags[..k], j, c);
      assert flags[j := true][..k] == flags[..k][j := true];
    } else {
      assert flags[j := true][..k] == flags[..k];
    }
  }

  lemma {:induction false} AllFlagged(word: string, flags: seq<bool>, c: char)
    requires |flags| == |word|
    requires forall j :: 0 <= j < |word| && word[j] == c ==> flags[j]
    ensures Flagged(word, flags, c) == Occurrences(word, c)
  {
    if word != "" {
      AllFlagged(word[..|word| - 1], flags[..|word| - 1], c);
    }
  }

  // One more position of the guess is marked.
  lemma ColourOne(guess: string, i: nat, colours: seq<Colour>, colour: Colour, c: char)
    requires i < |guess| && |colours| == i
    ensures Coloured(guess[..i + 1], colours + [colour], c) ==
            Coloured(guess[..i], colours, c) + if guess[i] == c && colour != Grey then 1 else 0
  {
    assert guess[..i + 1][..i] == guess[..i];
    assert Flags(colours + [colour])[..i] == Flags(colours);
  }

  // After the first pass the flags are the greens.
  lemma {:induction false} GreensAreFlagged(guess: string, answer: string, flags: seq<bool>, i: nat, c: char)
    requires |guess| == |answer| == |flags| && i <= |guess|
    requires forall j :: 0 <= j < |flags| ==> flags[j] == (guess[j] == answer[j])
    ensures Flagged(answer, flags, c) == Flagged(answer[..i], flags[..i], c) + GreensFrom(guess, answer, i, c)
    decreases |guess| - i
  {
    if i < |guess| {
      GreensAreFlagged(guess, answer, flags, i + 1, c);
      assert answer[..i + 1][..i] == answer[..i] && flags[..i + 1][..i] == flags[..i];
    } else {
      assert answer[..i] == answer && flags[..i] == flags;
    }
  }

  // --- What the second pass keeps ---

  // The flags count the colours given so far and the greens still to come.
  ghost predicate Balanced(guess: string, answer: string, flags: seq<bool>, colours: seq<Colour>)
  {
    && |guess| == |answer| == |flags| && |colours| <= |guess|
    && forall c :: Flagged(answer, flags, c) ==
                   Coloured(guess[..|colours|], colours, c) + GreensFrom(guess, answer, |colours|, c)
  }

  // A letter that stayed grey had no free place left in the answer.
  ghost predicate Exhausted(guess: string, answer: string, flags: seq<bool>, colours: seq<Colour>)
  {
    && |guess| == |answer| == |flags| && |colours| <= |guess|
    && forall i, j :: 0 <= i < |colours| && 0 <= j < |answer| && colours[i] == Grey && answer[j] == guess[i] ==> flags[j]
  }

  ghost predicate GreensExact(guess: string, answer: string, colours: seq<Colour>)
  {
    && |guess| == |answer| && |colours| <= |guess|
    && forall i :: 0 <= i < |colours| ==> (colours[i] == Green <==> guess[i] == answer[i])
  }

  // Each yellow letter stands for a place of its own in the answer that is not green.
  ghost predicate Paired(guess: string, answer: string, colours: seq<Colour>, places: seq<nat>)
  {
    && |guess| == |answer| && |places| == |colours| <= |guess|
    && (forall i :: 0 <= i < |colours| && colours[i] == Yellow ==>
          places[i] < |answer| && answer[places[i]] == guess[i] && guess[places[i]] != answer[places[i]])
    && (forall i, k :: 0 <= i < k < |colours| && colours[i] == Yellow && colours[k] == Yellow ==> places[i] != places[k])
  }

  // Yellow goes to the first occurrences: no yellow after a grey of the same letter.
  ghost predicate LeftToRight(guess: string, colours: seq<Colour>)
  {
    && |colours| <= |guess|
    && forall i, k :: 0 <= i < k < |colours| && guess[i] == guess[k] && colours[i] == Grey ==> colours[k] != Yellow
  }

  lemma StartIsBalanced(guess: string, answer: string, flags: seq<bool>)
    requires |guess| == |answer| == |flags|
    requires forall j :: 0 <= j < |flags| ==> flags[j] == (guess[j] == answer[j])
    ensures Balanced(guess, answer, flags, [])
  {
    forall c
      ensures Flagged(answer, flags, c) == Coloured(guess[..0], [], c) + GreensFrom(guess, answer, 0, c)
    {
      GreensAreFlagged(guess, answer, flags, 0, c);
    }
  }

  // A yellow flags one place of the letter; green and grey flag nothing.
  lemma StepIsBalanced(guess: string, answer: string, flags: seq<bool>, colours: seq<Colour>,
                       colour: Colour, after: seq<bool>, j: nat)
    requires |guess| == |answer| == |flags| && |colours| < |guess|
    requires Balanced(guess, answer, flags, colours)
    requires colour == Green <==> guess[|colours|] == answer[|colours|]
    requires if colour == Yellow then
               j < |answer| && !flags[j] && answer[j] == guess[|colours|] && after == flags[j := true]
             else after == flags
    ensures Balanced(guess, answer, after, colours + [colour])
  {
    var i := |colours|;
    forall c
      ensures Flagged(answer, after, c) ==
              Coloured(guess[..i + 1], colours + [colour], c) + GreensFrom(guess, answer, i + 1, c)
    {
      ColourOne(guess, i, colours, colour, c);
      assert Flagged(answer, flags, c) == Coloured(guess[..i], colours, c) + GreensFrom(guess, answer, i, c);
      if colour == Yellow {
        FlagOne(answer, flags, j, c);
      }
    }
  }

  lemma EndIsMinimum(guess: string, answer: string, flags: seq<bool>, colours: seq<Colour>, c: char)
    requires |guess| == |answer| == |flags| == |colours|
    requires Balanced(guess, answer, flags, colours) && Exhausted(guess, answer, flags, colours)
    ensures Coloured(guess, colours, c) == Min(Occurrences(guess, c), Occurrences(answer, c))
  {
    assert guess[..|colours|] == guess;
    assert Flagged(answer, flags, c) == Coloured(guess, colours, c);
    if forall i :: 0 <= i < |guess| && guess[i] == c ==> colours[i] != Grey {
      AllFlagged(guess, Flags(colours), c);
    } else {
      AllFlagged(answer, flags, c);
    }
  }

  // --- The rules leave no choice ---

  ghost predicate FollowsRules(guess: string, answer: string, colours: seq<Colour>) {
    && |guess| == |answer| == |colours|
    && GreensExact(guess, answer, colours)
    && (forall c :: Coloured(guess, colours, c) == Min(Occurrences(guess, c), Occurrences(answer, c)))
    && LeftToRight(guess, colours)
  }

  function PlacesOf(word: string, c: char): set<int> {
    set j | 0 <= j < |word| && word[j] == c
  }

  function FlaggedPlaces(word: string, flags: seq<bool>, c: char): set<int>
    requires |flags| == |word|
  {
    set j | 0 <= j < |word| && word[j] == c && flags[j]
  }

  lemma {:induction false} FlaggedCounts(word: string, flags: seq<bool>, c: char)
    requires |flags| == |word|
    ensures Flagged(word, flags, c) == |FlaggedPlaces(word, flags, c)|
  {
    if word != "" {
      var k := |word| - 1;
      FlaggedCounts(word[..k], flags[..k], c);
      assert FlaggedPlaces(word, flags, c) ==
             FlaggedPlaces(word[..k], flags[..k], c) + if word[k] == c && flags[k] then {k} else {};
    }
  }

  lemma {:induction false} OccurrencesCount(word: string, c: char)
    ensures Occurrences(word, c) == |PlacesOf(word, c)|
  {
    var all := seq(|word|, _ => true);
    AllFlagged(word, all, c);
    FlaggedCounts(word, all, c);
    assert FlaggedPlaces(word, all, c) == PlacesOf(word, c);
  }

  // The rules in terms of places: of each letter as many are coloured as guess and
  // answer have in common.
  lemma {:induction false} RulesInPlaces(guess: string, answer: string, colours: seq<Colour>, c: char)
    requires FollowsRules(guess, answer, colours)
    ensures var coloured := set j | 0 <= j < |guess| && guess[j] == c && colours[j] != Grey;
            var here, there := set j | 0 <= j < |guess| && guess[j] == c, set j | 0 <= j < |answer| && answer[j] == c;
            |coloured| == if |here| < |there| then |here| else |there|
  {
    OccurrencesCount(guess, c);
    OccurrencesCount(answer, c);
    FlaggedCounts(guess, Flags(colours), c);
    var coloured := set j | 0 <= j < |guess| && guess[j] == c && colours[j] != Grey;
    assert FlaggedPlaces(guess, Flags(colours), c) == coloured;
    assert Coloured(guess, colours, c) == Min(Occurrences(guess, c), Occurrences(answer, c));
  }

  // Where the first difference is a yellow against a grey, the yellow side stays ahead.
  lemma {:induction false} StaysAhead(guess: string, answer: string, a: seq<Colour>, b: seq<Colour>, i: nat, k: nat)
    requires |guess| == |answer| == |a| == |b| && i < k <= |guess|
    requires GreensExact(guess, answer, a) && GreensExact(guess, answer, b) && LeftToRight(guess, b)
    requires a[..i] == b[..i] && a[i] == Yellow && b[i] == Grey
    ensures Coloured(guess[..k], a[..k], guess[i]) > Coloured(guess[..k], b[..k], guess[i])
    decreases k
  {
    var c, l := guess[i], k - 1;
    ColourOne(guess, l, a[..l], a[l], c);
    ColourOne(guess, l, b[..l], b[l], c);
    assert a[..k] == a[..l] + [a[l]] && b[..k] == b[..l] + [b[l]];
    if i < l {
      StaysAhead(guess, answer, a, b, i, l);
    }
  }

  lemma NoYellowForGrey(guess: string, answer: string, a: seq<Colour>, b: seq<Colour>, i: nat)
    requires FollowsRules(guess, answer, a) && FollowsRules(guess, answer, b)
    requires i < |guess| && a[..i] == b[..i]
    ensures !(a[i] == Yellow && b[i] == Grey)
  {
    assert guess[..|guess|] == guess && a[..|guess|] == a && b[..|guess|] == b;
    assert Coloured(guess, a, guess[i]) == Coloured(guess, b, guess[i]);
    if a[i] == Yellow && b[i] == Grey {
      StaysAhead(guess, answer, a, b, i, |guess|);
    }
  }

  // Only one marking meets the rules.
  lemma {:induction false} RulesDetermineMarking(guess: string, answer: string, a: seq<Colour>, b: seq<Colour>, k: nat)
    requires FollowsRules(guess, answer, a) && FollowsRules(guess, answer, b) && k <= |guess|
    ensures a[..k] == b[..k]
    ensures k == |guess| ==> a == b
  {
    if k > 0 {
      RulesDetermineMarking(guess, answer, a, b, k - 1);
      NoYellowForGrey(guess, answer, a, b, k - 1);
      NoYellowForGrey(guess, answer, b, a, k - 1);
      SamePrefix(a, b, k);
    }
    assert a[..|guess|] == a && b[..|guess|] == b;
  }

  lemma SamePrefix(a: seq<Colour>, b: seq<Colour>, k: nat)
    requires 0 < k <= |a| && k <= |b| && a[..k - 1] == b[..k - 1] && a[k - 1] == b[k - 1]
    ensures a[..k] == b[..k]
  {
    assert a[..k] == a[..k - 1] + [a[k - 1]] && b[..k] == b[..k - 1] + [b[k - 1]];
  }

  // Everything the second pass keeps.
  ghost predicate Marked(guess: string, answer: string, flags: seq<bool>, colours: seq<Colour>, places: seq<nat>) {
    && |guess| == |answer| == |flags| && |colours| <= |guess|
    && Balanced(guess, answer, flags, colours)
    && Exhausted(guess, answer, flags, colours)
    && GreensExact(guess, answer, colours)
    && Paired(guess, answer, colours, places)
    && LeftToRight(guess, colours)
    && (forall j :: 0 <= j < |guess| && guess[j] == answer[j] ==> flags[j])
    && (forall k :: 0 <= k < |colours| && colours[k] == Yellow ==> flags[places[k]])
  }

  // What the inner loop does to the flags.
  ghost predicate Claimed(letter: char, answer: string, flags: seq<bool>,
                          colour: Colour, place: nat, after: seq<bool>)
  {
    && |flags| == |answer|
    && if colour == Yellow then
         place < |answer| && answer[place] == letter && !flags[place] && after == flags[place := true]
       else
         after == flags &&
         (colour == Grey ==> forall j :: 0 <= j < |answer| && answer[j] == letter ==> flags[j])
  }

  // A yellow takes a place of its own.
  lemma {:induction false} StepIsPaired(guess: string, answer: string, flags: seq<bool>, colours: seq<Colour>,
                                        places: seq<nat>, colour: Colour, place: nat, after: seq<bool>)
    requires |guess| == |answer| == |flags| == |after| && |colours| < |guess|
    requires Paired(guess, answer, colours, places)
    requires forall j :: 0 <= j < |guess| && guess[j] == answer[j] ==> flags[j]
    requires forall k :: 0 <= k < |colours| && colours[k] == Yellow ==> flags[places[k]]
    requires Claimed(guess[|colours|], answer, flags, colour, place, after)
    ensures Paired(guess, answer, colours + [colour], places + [place])
    ensures forall k :: 0 <= k <= |colours| && (colours + [colour])[k] == Yellow ==> after[(places + [place])[k]]
  {
  }

  // A letter stays grey only when no place of it is free, so none of it turns yellow later.
  lemma {:induction false} StepIsExhausted(guess: string, answer: string, flags: seq<bool>, colours: seq<Colour>,
                                           colour: Colour, place: nat, after: seq<bool>)
    requires |after| == |flags| && |colours| < |guess| && Exhausted(guess, answer, flags, colours)
    requires LeftToRight(guess, colours) && Claimed(guess[|colours|], answer, flags, colour, place, after)
    ensures Exhausted(guess, answer, after, colours + [colour]) && LeftToRight(guess, colours + [colour])
  {
  }

  lemma {:induction false} StepIsMarked(guess: string, answer: string, flags: seq<bool>, colours: seq<Colour>,
                                        places: seq<nat>, colour: Colour, place: nat, after: seq<bool>)
    requires Marked(guess, answer, flags, colours, places) && |colours| < |guess| && |after| == |flags|
    requires colour == Green <==> guess[|colours|] == answer[|colours|]
    requires Claimed(guess[|colours|], answer, flags, colour, place, after)
    ensures Marked(guess, answer, after, colours + [colour], places + [place])
  {
    hide Balanced, Paired, Exhausted, LeftToRight;
    StepIsBalanced(guess, answer, flags, colours, colour, after, place);
    StepIsPaired(guess, answer, flags, colours, places, colour, place, after);
    StepIsExhausted(guess, answer, flags, colours, colour, place, after);
  }

  // The first pass flags the greens.
  method MarkGreens(guess: string, answer: string) returns (matched: array<bool>)
    requires |guess| == |answer|
    ensures fresh(matched) && Marked(guess, answer, matched[..], [], [])
  {
    var n := |guess|;
    matched := new bool[n](_ => false);
    for i := 0 to n
      invariant forall j :: 0 <= j < i ==> matched[j] == (guess[j] == answer[j])
      invariant forall j :: i <= j < n ==> !matched[j]
    {
      if guess[i] == answer[i] {
        matched[i] := true;
      }
    }
    StartIsBalanced(guess, answer, matched[..]);
  }

  // The two passes. For each letter, as many positions are coloured as guess and
  // answer have in common.
  method Mark(guess: string, answer: string) returns (colours: seq<Colour>, ghost places: seq<nat>)
    requires |guess| == |answer|
    ensures FollowsRules(guess, answer, colours) && Paired(guess, answer, colours, places)
  {
    var matched := MarkGreens(guess, answer);
    colours := [];
    places := [];
    for i := 0 to |guess|
      invariant |colours| == i && Marked(guess, answer, matched[..], colours, places)
    {
      hide Balanced, Exhausted, Paired, LeftToRight, GreensExact;
      ghost var flags := matched[..];
      var colour := Green;
      var place := 0;
      if guess[i] != answer[i] {
        colour, place := Claim(guess[i], answer, matched);
      }
      StepIsMarked(guess, answer, flags, colours, places, colour, place, matched[..]);
      colours := colours + [colour];
      places := places + [place];
    }
    forall c
      ensures Coloured(guess, colours, c) == Min(Occurrences(guess, c), Occurrences(answer, c))
    {
      EndIsMinimum(guess, answer, matched[..], colours, c);
    }
  }

  // The inner loop: the first free place of the letter is taken, if there is one.
  method Claim(letter: char, answer: string, matched: array<bool>) returns (colour: Colour, place: nat)
    requires matched.Length == |answer|
    modifies matched
    ensures colour != Green && Claimed(letter, answer, old(matched[..]), colour, place, matched[..])
  {
    for j := 0 to |answer|
      invariant matched[..] == old(matched[..])
      invariant forall k :: 0 <= k < j && answer[k] == letter ==> matched[k]
    {
      if letter == answer[j] && !matched[j] {
        matched[j] := true;
        return Yellow, j;
      }
    }
    return Grey, 0;
  }
}
