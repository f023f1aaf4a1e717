/** The game record of the split version: a goal, the guesses made so far, the win and
    loss predicates, the letter board and the saved-game (JSON) encoding. */
module Games {
  import opened Wrappers
  import opened Letters
  import opened JsonValues
  import opened Words

  /** The guess count at which `IsFull` holds. */
  const MaxGuesses := 6

  /** The most guesses a saved game may hold once its invalid entries are dropped. */
  const MaxSavedGuesses := 6

  // ---------------------------------------------------------------------------
  // The letter board

  /** The board can be built: the goal has five readable positions, and the first five
      characters of every guess are letters of the alphabet (the source panics when a
      character has no alphabet position). */
  predicate Readable(goal: Word, guesses: seq<Word>) {
    5 <= |goal.text|
    && forall n :: 0 <= n < |guesses| ==> 5 <= |guesses[n].text| && AllLetters(guesses[n].text[..5])
  }

  /** How one verdict changes a letter's status: Correct always gives FoundPosition,
      WrongPosition gives FoundLetter unless the letter is at FoundPosition already, and
      WrongLetter gives NotPresent whatever the letter had. */
  function Update(s: LetterStatus, v: LetterResult): (t: LetterStatus)
    ensures t != Unused
    ensures t == NotPresent <==> v == WrongLetter
    ensures t == FoundPosition <==> v == Correct || (v == WrongPosition && s == FoundPosition)
    ensures t == FoundLetter <==> v == WrongPosition && s != FoundPosition
  {
    match v
    case Correct => FoundPosition
    case WrongPosition => if s == FoundPosition then s else FoundLetter
    case WrongLetter => NotPresent
  }

  /** The board after the verdicts of positions 0..n-1 of one guess have been applied. */
  function ApplyVerdicts(board: seq<LetterStatus>, text: string, res: seq<LetterResult>, n: nat): (b: seq<LetterStatus>)
    requires |board| == 26 && n <= 5 <= |text| && |res| == 5 && AllLetters(text[..5])
    ensures |b| == 26
    ensures forall k :: 0 <= k < 26 && Alphabet[k] !in text[..n] ==> b[k] == board[k]
  {
    if n == 0 then board
    else
      assert text[n - 1] == text[..5][n - 1];
      var prev := ApplyVerdicts(board, text, res, n - 1);
      var k := AlphabetPosition(text[n - 1]);
      prev[k := Update(prev[k], res[n - 1])]
  }

  /** The board after every guess, in order, starting from all letters Unused. */
  function Board(goal: Word, guesses: seq<Word>): (b: seq<LetterStatus>)
    requires Readable(goal, guesses)
    ensures |b| == 26
    decreases |guesses|
  {
    if guesses == [] then seq(26, _ => Unused)
    else
      var last := guesses[|guesses| - 1];
      var earlier := guesses[..|guesses| - 1];
      assert Readable(goal, earlier);
      ApplyVerdicts(Board(goal, earlier), last.text, Feedback(last, goal), 5)
  }

  lemma {:induction false} ApplyUnused(board: seq<LetterStatus>, text: string, res: seq<LetterResult>, n: nat, k: nat)
    requires |board| == 26 && n <= 5 <= |text| && |res| == 5 && AllLetters(text[..5]) && k < 26
    ensures ApplyVerdicts(board, text, res, n)[k] == Unused
      <==> board[k] == Unused && forall i :: 0 <= i < n ==> text[i] != Alphabet[k]
    decreases n
  {
    if n > 0 {
      ApplyUnused(board, text, res, n - 1, k);
      assert text[n - 1] == text[..5][n - 1];
      var prev := ApplyVerdicts(board, text, res, n - 1);
      var p := AlphabetPosition(text[n - 1]);
      assert ApplyVerdicts(board, text, res, n) == prev[p := Update(prev[p], res[n - 1])];
      if p != k {
        assert text[n - 1] != Alphabet[k];
      }
    }
  }

  /** A letter stays Unused exactly when no guess holds it in its first five positions. */
  lemma {:induction false} BoardUnused(goal: Word, guesses: seq<Word>, k: nat)
    requires Readable(goal, guesses) && k < 26
    ensures Board(goal, guesses)[k] == Unused
      <==> forall n, i :: 0 <= n < |guesses| && 0 <= i < 5 ==> guesses[n].text[i] != Alphabet[k]
    decreases |guesses|
  {
    if guesses != [] {
      var last := guesses[|guesses| - 1];
      var earlier := guesses[..|guesses| - 1];
      assert Readable(goal, earlier);
      BoardUnused(goal, earlier, k);
      ApplyUnused(Board(goal, earlier), last.text, Feedback(last, goal), 5, k);
      if Board(goal, guesses)[k] == Unused {
        forall n, i | 0 <= n < |guesses| && 0 <= i < 5 ensures guesses[n].text[i] != Alphabet[k] {
          if n < |guesses| - 1 {
            assert guesses[n] == earlier[n];
          }
        }
      } else {
        assert !(forall n, i :: 0 <= n < |guesses| - 1 && 0 <= i < 5 ==> earlier[n].text[i] != Alphabet[k])
          || !(forall i :: 0 <= i < 5 ==> last.text[i] != Alphabet[k]);
      }
    }
  }

  /** What a board claims about a goal: a letter at FoundPosition is at one of the goal's
      five positions, and a letter at FoundLetter is in the goal's text. */
  predicate Truthful(board: seq<LetterStatus>, goal: string)
    requires |board| == 26 && 5 <= |goal|
  {
    forall k :: 0 <= k < 26 ==>
      (board[k] == FoundPosition ==> Alphabet[k] in goal[..5])
      && (board[k] == FoundLetter ==> Alphabet[k] in goal)
  }

  lemma {:induction false} ApplyTruthful(board: seq<LetterStatus>, guess: string, goal: string, n: nat)
    requires |board| == 26 && n <= 5 <= |guess| && 5 <= |goal| && AllLetters(guess[..5])
    requires Truthful(board, goal)
    ensures Truthful(ApplyVerdicts(board, guess, Compare(guess, goal, 5), n), goal)
    decreases n
  {
    if n > 0 {
      ApplyTruthful(board, guess, goal, n - 1);
      CompareSound(guess, goal, 5);
      assert guess[n - 1] == guess[..5][n - 1];
      assert goal[n - 1] == goal[..5][n - 1];
    }
  }

  /** The board never claims more than the guesses showed: FoundPosition only for a letter
      at one of the goal's five positions, FoundLetter only for a letter of the goal.
      (NotPresent carries no such promise; see `DowngradeExample`.) */
  lemma {:induction false} BoardTruthful(goal: Word, guesses: seq<Word>)
    requires Readable(goal, guesses)
    ensures Truthful(Board(goal, guesses), goal.text)
    decreases |guesses|
  {
    if guesses != [] {
      var last := guesses[|guesses| - 1];
      var earlier := guesses[..|guesses| - 1];
      assert Readable(goal, earlier);
      BoardTruthful(goal, earlier);
      ApplyTruthful(Board(goal, earlier), last.text, goal.text, 5);
    }
  }

  lemma {:induction false} ApplyLastWriter(board: seq<LetterStatus>, text: string, res: seq<LetterResult>, n: nat, i: nat)
    requires |board| == 26 && n <= 5 <= |text| && |res| == 5 && AllLetters(text[..5])
    requires i < n && forall j :: i < j < n ==> text[j] != text[i]
    ensures text[i] in Alphabet
    ensures var k := AlphabetPosition(text[i]);
      ApplyVerdicts(board, text, res, n)[k] == Update(ApplyVerdicts(board, text, res, i)[k], res[i])
    decreases n
  {
    assert text[i] == text[..5][i];
    if i < n - 1 {
      ApplyLastWriter(board, text, res, n - 1, i);
      assert text[n - 1] == text[..5][n - 1];
    }
  }

  /** The last verdict on a letter in the latest guess decides its status, whatever the
      earlier guesses found: Correct gives FoundPosition, WrongLetter gives NotPresent, and
      WrongPosition gives FoundLetter or FoundPosition (WrongPositionDecides says which). */
  lemma LastVerdictDecides(goal: Word, guesses: seq<Word>, i: nat)
    requires Readable(goal, guesses) && guesses != [] && i < 5
    requires var t := guesses[|guesses| - 1].text; forall j :: i < j < 5 ==> t[j] != t[i]
    ensures var last := guesses[|guesses| - 1];
      last.text[i] in Alphabet
      && var s := Board(goal, guesses)[AlphabetPosition(last.text[i])];
      && (Feedback(last, goal)[i] == Correct ==> s == FoundPosition)
      && (Feedback(last, goal)[i] == WrongLetter ==> s == NotPresent)
      && (Feedback(last, goal)[i] == WrongPosition ==> s == FoundLetter || s == FoundPosition)
  {
    var last := guesses[|guesses| - 1];
    var earlier := guesses[..|guesses| - 1];
    assert Readable(goal, earlier);
    ApplyLastWriter(Board(goal, earlier), last.text, Feedback(last, goal), 5, i);
  }

  /** Which of the two a last WrongPosition verdict leaves: FoundPosition exactly when the
      letter had that status just before this position, from earlier guesses or from earlier
      positions of the latest one. */
  lemma WrongPositionDecides(goal: Word, guesses: seq<Word>, i: nat)
    requires Readable(goal, guesses) && guesses != [] && i < 5
    requires var t := guesses[|guesses| - 1].text; forall j :: i < j < 5 ==> t[j] != t[i]
    requires Feedback(guesses[|guesses| - 1], goal)[i] == WrongPosition
    ensures var last := guesses[|guesses| - 1];
      var before := ApplyVerdicts(Board(goal, guesses[..|guesses| - 1]), last.text, Feedback(last, goal), i);
      last.text[i] in Alphabet
      && var k := AlphabetPosition(last.text[i]);
      (Board(goal, guesses)[k] == FoundPosition <==> before[k] == FoundPosition)
  {
    var last := guesses[|guesses| - 1];
    var earlier := guesses[..|guesses| - 1];
    assert Readable(goal, earlier);
    ApplyLastWriter(Board(goal, earlier), last.text, Feedback(last, goal), 5, i);
  }

  /** A WrongLetter verdict overwrites FoundPosition: goal "abcde" and guess "aaxyz" mark
      the first a Correct, but the second a is a WrongLetter (the only a is spent) and the
      board ends with a as NotPresent. */
  lemma DowngradeExample()
    ensures Readable(Word("abcde"), [Word("aaxyz")])
    ensures Feedback(Word("aaxyz"), Word("abcde"))[0] == Correct
    ensures Board(Word("abcde"), [Word("aaxyz")])[0] == NotPresent
  {
    DowngradeReadable();
    SecondCopyExample();
    LastVerdictDecides(Word("abcde"), [Word("aaxyz")], 1);
    assert AlphabetPosition('a') == 0;
  }

  /** The guess "aaxyz" is made of letters, so the board of the example can be built. */
  lemma DowngradeReadable()
    ensures Readable(Word("abcde"), [Word("aaxyz")])
  {
    InAlphabet('a'); InAlphabet('x'); InAlphabet('y'); InAlphabet('z');
    assert AllLetters("aaxyz"[..5]);
  }

  /** Against goal "abcde", guess "aaxyz" spends the only a on its first, exact, position,
      so its second a is a WrongLetter. */
  lemma SecondCopyExample()
    ensures Feedback(Word("aaxyz"), Word("abcde"))[0] == Correct
    ensures Feedback(Word("aaxyz"), Word("abcde"))[1] == WrongLetter
  {
    var goal, guess := "abcde", "aaxyz";
    assert CountIn(goal, 'a') == 1;
    var first := Compare(guess, goal, 1);
    assert first == [Correct];
    assert Marks(guess, first, 'a') == 1;
    CompareAt(guess, goal, 0);
    CompareAt(guess, goal, 1);
  }

  // ---------------------------------------------------------------------------
  // The saved-game encoding

  /** The JSON strings of the guesses' stored texts, in order. */
  function Texts(guesses: seq<Word>): (items: seq<Json>)
    ensures |items| == |guesses|
    ensures forall n :: 0 <= n < |guesses| ==> items[n] == Str(guesses[n].text)
  {
    if guesses == [] then [] else [Str(guesses[0].text)] + Texts(guesses[1..])
  }

  /** The record `{"goal": <goal text>, "guesses": [<guess texts>]}`. */
  function Encode(goal: Word, guesses: seq<Word>): (j: Json)
    ensures j.Obj? && j.fields.Keys == {"goal", "guesses"} && j.fields["goal"] == Str(goal.text)
    ensures j.fields["guesses"] == Arr(Texts(guesses))
    ensures |j.fields["guesses"].items| == |guesses|
    ensures forall n :: 0 <= n < |guesses| ==> j.fields["guesses"].items[n] == Str(guesses[n].text)
  {
    Obj(map["goal" := Str(goal.text), "guesses" := Arr(Texts(guesses))])
  }

  /** The guesses a saved array yields: each string entry that builds a word, in order;
      entries that are not strings, or do not build a word, are dropped. */
  function Surviving(items: seq<Json>, dictionary: set<string>): (r: seq<Word>)
    ensures |r| <= |items|
    ensures forall n :: 0 <= n < |r| ==> IsValid(r[n], dictionary)
  {
    if items == [] then []
    else
      var rest := Surviving(items[1..], dictionary);
      match AsStr(items[0])
      case None => rest
      case Some(s) =>
        match From(s, dictionary)
        case Ok(w) => [w] + rest
        case Err(_) => rest
  }

  /** A saved game read back. The checks run in order: an object, then the "goal" key, then
      the "guesses" key, then at most six surviving guesses, then a string goal, then a goal
      that builds a word. A success holds a valid goal with the saved goal text and at most
      six valid guesses. */
  function Decode(value: Json, dictionary: set<string>): (r: Result<(Word, seq<Word>)>)
    ensures r == Err(NotObject) <==> !value.Obj?
    ensures r == Err(MissingGoal) <==> value.Obj? && "goal" !in value.fields
    ensures r == Err(MissingGuesses) <==> value.Obj? && "goal" in value.fields && "guesses" !in value.fields
    ensures r == Err(TooManyGuesses) <==>
              (value.Obj? && "goal" in value.fields && "guesses" in value.fields
               && |Surviving(Members(value.fields["guesses"]), dictionary)| > MaxSavedGuesses)
    ensures r == Err(GoalNotString) <==>
              (value.Obj? && "goal" in value.fields && "guesses" in value.fields
               && |Surviving(Members(value.fields["guesses"]), dictionary)| <= MaxSavedGuesses
               && !value.fields["goal"].Str?)
    ensures (value.Obj? && "goal" in value.fields && "guesses" in value.fields
             && |Surviving(Members(value.fields["guesses"]), dictionary)| <= MaxSavedGuesses
             && value.fields["goal"].Str?) ==>
              (r.Ok? <==> From(value.fields["goal"].str, dictionary).Ok?)
              && (r.Err? ==> r.error == From(value.fields["goal"].str, dictionary).error)
    ensures r.Ok? ==>
              (value.Obj? && "goal" in value.fields && "guesses" in value.fields
               && value.fields["goal"] == Str(r.value.0.text)
               && From(value.fields["goal"].str, dictionary) == Ok(r.value.0)
               && r.value.1 == Surviving(Members(value.fields["guesses"]), dictionary)
               && IsValid(r.value.0, dictionary) && |r.value.1| <= MaxSavedGuesses
               && forall n :: 0 <= n < |r.value.1| ==> IsValid(r.value.1[n], dictionary))
  {
    if !value.Obj? then Err(NotObject)
    else if "goal" !in value.fields then Err(MissingGoal)
    else if "guesses" !in value.fields then Err(MissingGuesses)
    else
      var guesses := Surviving(Members(value.fields["guesses"]), dictionary);
      if |guesses| > MaxSavedGuesses then Err(TooManyGuesses)
      else
        match AsStr(value.fields["goal"])
        case None => Err(GoalNotString)
        case Some(g) =>
          match From(g, dictionary)
          case Err(e) => Err(e)
          case Ok(goal) => Ok((goal, guesses))
  }

  lemma {:induction false} SurvivingTexts(guesses: seq<Word>, dictionary: set<string>)
    requires forall n :: 0 <= n < |guesses| ==> IsValid(guesses[n], dictionary)
    ensures Surviving(Texts(guesses), dictionary) == guesses
    decreases |guesses|
  {
    if guesses != [] {
      SurvivingTexts(guesses[1..], dictionary);
      FromValid(guesses[0], dictionary);
      SurvivingCons(Texts(guesses), guesses[0], dictionary);
      assert Texts(guesses)[1..] == Texts(guesses[1..]);
      assert guesses == [guesses[0]] + guesses[1..];
    }
  }

  /** Loading keeps guesses entry by entry: the survivors of two arrays one after the other
      are the survivors of the first followed by those of the second. */
  lemma {:induction false} SurvivingAppend(a: seq<Json>, b: seq<Json>, dictionary: set<string>)
    ensures Surviving(a + b, dictionary) == Surviving(a, dictionary) + Surviving(b, dictionary)
    decreases |a|
  {
    if a != [] {
      SurvivingAppend(a[1..], b, dictionary);
      assert (a + b)[1..] == a[1..] + b;
      assert (a + b)[0] == a[0];
    } else {
      assert a + b == b;
    }
  }

  /** A single entry survives exactly when it is a string that builds a word, and then as
      that word; any other entry is dropped. */
  lemma SurvivingOne(x: Json, dictionary: set<string>)
    ensures Surviving([x], dictionary)
      == if x.Str? && From(x.str, dictionary).Ok? then [From(x.str, dictionary).value] else []
  {
    assert [x][1..] == [];
  }

  /** A leading string that builds a word survives, in front of what the rest keeps. */
  lemma SurvivingCons(items: seq<Json>, w: Word, dictionary: set<string>)
    requires items != [] && items[0] == Str(w.text) && From(w.text, dictionary) == Ok(w)
    ensures Surviving(items, dictionary) == [w] + Surviving(items[1..], dictionary)
  {
  }

  /** Saving and loading a game of valid words gives the same game back when it holds at
      most six guesses, and fails with TooManyGuesses otherwise. */
  lemma EncodeDecode(goal: Word, guesses: seq<Word>, dictionary: set<string>)
    requires IsValid(goal, dictionary)
    requires forall n :: 0 <= n < |guesses| ==> IsValid(guesses[n], dictionary)
    ensures Decode(Encode(goal, guesses), dictionary)
      == if |guesses| <= MaxSavedGuesses then Ok((goal, guesses)) else Err(TooManyGuesses)
  {
    SurvivingTexts(guesses, dictionary);
    assert From(goal.text, dictionary) == Ok(goal);
  }

  /** The shape `Encode` writes: exactly the two keys, a string goal that builds a word, and
      an array of at most six strings that each build a word. */
  predicate IsSavedGame(value: Json, dictionary: set<string>) {
    value.Obj? && value.fields.Keys == {"goal", "guesses"}
    && value.fields["goal"].Str? && From(value.fields["goal"].str, dictionary).Ok?
    && value.fields["guesses"].Arr? && |value.fields["guesses"].items| <= MaxSavedGuesses
    && forall n :: 0 <= n < |value.fields["guesses"].items| ==>
         value.fields["guesses"].items[n].Str?
         && From(value.fields["guesses"].items[n].str, dictionary).Ok?
  }

  lemma {:induction false} TextsSurviving(items: seq<Json>, dictionary: set<string>)
    requires forall n :: 0 <= n < |items| ==> items[n].Str? && From(items[n].str, dictionary).Ok?
    ensures Texts(Surviving(items, dictionary)) == items
    decreases |items|
  {
    if items != [] {
      var rest := Surviving(items[1..], dictionary);
      TextsSurviving(items[1..], dictionary);
      var w := From(items[0].str, dictionary).value;
      assert w.text == items[0].str;
      SurvivingCons(items, w, dictionary);
      assert ([w] + rest)[1..] == rest;
      assert Texts([w] + rest) == [Str(w.text)] + Texts(rest);
      assert items == [items[0]] + items[1..];
    }
  }

  /** A value of the saved shape loads as its goal and all of its guesses. */
  lemma DecodeSaved(value: Json, dictionary: set<string>)
    requires IsSavedGame(value, dictionary)
    ensures Decode(value, dictionary)
      == Ok((From(value.fields["goal"].str, dictionary).value, Surviving(value.fields["guesses"].items, dictionary)))
  {
    assert Members(value.fields["guesses"]) == value.fields["guesses"].items;
  }

  /** Saving what a value of the saved shape loads as gives that value back. */
  lemma EncodeSaved(value: Json, dictionary: set<string>)
    requires IsSavedGame(value, dictionary)
    ensures Encode(From(value.fields["goal"].str, dictionary).value, Surviving(value.fields["guesses"].items, dictionary))
      == value
  {
    var fields := value.fields;
    var goal := From(fields["goal"].str, dictionary).value;
    TextsSurviving(fields["guesses"].items, dictionary);
    assert fields["goal"] == Str(goal.text);
    assert fields == map["goal" := fields["goal"], "guesses" := fields["guesses"]];
  }

  /** Loading a value of the saved shape and saving the result gives the same value back. */
  lemma DecodeEncode(value: Json, dictionary: set<string>)
    requires IsSavedGame(value, dictionary)
    ensures Decode(value, dictionary).Ok?
    ensures Encode(Decode(value, dictionary).value.0, Decode(value, dictionary).value.1) == value
  {
    DecodeSaved(value, dictionary);
    EncodeSaved(value, dictionary);
  }

  // ---------------------------------------------------------------------------
  // The game

  class Game {
    var goal: Word
    var guesses: seq<Word>

    /** A new game has the given goal and no guesses. */
    constructor (word: Word)
      ensures goal == word && guesses == []
    {
      goal := word;
      guesses := [];
    }

    /** Won: there is a last guess and it equals the goal. */
    predicate IsWon()
      reads this
      ensures IsWon() <==> |guesses| > 0 && guesses[|guesses| - 1] == goal
    {
      match Last(guesses)
      case None => false
      case Some(w) => w == goal
    }

    /** Full: at least six guesses. */
    predicate IsFull()
      reads this
      ensures IsFull() <==> |guesses| >= 6
    {
      |guesses| >= MaxGuesses
    }

    /** Lost: full, and the last guess is not the goal. */
    predicate IsLost()
      reads this
      ensures IsLost() <==> |guesses| >= 6 && guesses[|guesses| - 1] != goal
    {
      IsFull() && !IsWon()
    }

    /** Appends the guess, with no check that the game is full or already over: the goal
        and the earlier guesses are unchanged, and the count may pass six. */
    method AddGuess(guess: Word)
      modifies this
      ensures goal == old(goal) && guesses == old(guesses) + [guess]
      ensures IsWon() <==> guess == goal
      ensures IsFull() <==> |old(guesses)| >= MaxGuesses - 1
      ensures IsLost() <==> |old(guesses)| >= MaxGuesses - 1 && guess != goal
    {
      guesses := guesses + [guess];
    }

    /** The comparison of a guess with this game's goal. */
    method CompareToGoal(guess: Word) returns (result: seq<LetterResult>)
      requires 5 <= |guess.text| && 5 <= |goal.text|
      ensures result == Feedback(guess, goal)
    {
      result := Comp(guess, goal);
    }

    /** The letter board: the 26 statuses after folding every guess's verdicts into a
        table that starts all Unused. */
    method LetterList() returns (board: seq<LetterStatus>)
      requires Readable(goal, guesses)
      ensures board == Board(goal, guesses)
    {
      var status := new LetterStatus[26](_ => Unused);
      var n := 0;
      while n < |guesses|
        invariant 0 <= n <= |guesses|
        invariant Readable(goal, guesses[..n])
        invariant status[..] == Board(goal, guesses[..n])
      {
        var guess := guesses[n];
        var result := CompareToGoal(guess);
        ghost var before := status[..];
        for i := 0 to 5
          invariant status[..] == ApplyVerdicts(before, guess.text, result, i)
        {
          var c := guess.text[i];
          assert c == guess.text[..5][i];
          var pos := AlphabetPosition(c);
          ghost var cur := status[..];
          ghost var next := cur[pos := Update(cur[pos], result[i])];
          assert ApplyVerdicts(before, guess.text, result, i + 1) == next;
          match result[i] {
            case Correct =>
              status[pos] := FoundPosition;
            case WrongPosition =>
              if status[pos] != FoundPosition {
                status[pos] := FoundLetter;
              }
            case WrongLetter =>
              status[pos] := NotPresent;
          }
          assert status[..] == next;
        }
        assert guesses[..n + 1][..n] == guesses[..n];
        assert guesses[..n + 1][n] == guess;
        n := n + 1;
      }
      assert guesses[..n] == guesses;
      board := status[..];
    }

    /** The saved form of this game. */
    function ToJson(): (j: Json)
      reads this
      ensures j.Obj? && j.fields.Keys == {"goal", "guesses"} && j.fields["goal"] == Str(goal.text)
      ensures j.fields["guesses"] == Arr(Texts(guesses)) && |j.fields["guesses"].items| == |guesses|
      ensures forall n :: 0 <= n < |guesses| ==> j.fields["guesses"].items[n] == Str(guesses[n].text)
    {
      Encode(goal, guesses)
    }

    /** A new game read from a saved value, or the error `Decode` gives. */
    static method FromJson(value: Json, dictionary: set<string>) returns (r: Result<Game>)
      ensures r.Ok? <==> Decode(value, dictionary).Ok?
      ensures r.Ok? ==>
                (fresh(r.value)
                 && r.value.goal == Decode(value, dictionary).value.0
                 && r.value.guesses == Decode(value, dictionary).value.1)
      ensures r.Err? ==> r.error == Decode(value, dictionary).error
    {
      match Decode(value, dictionary)
      case Err(e) =>
        r := Err(e);
      case Ok((goal, guesses)) =>
        var g := new Game(goal);
        g.guesses := guesses;
        r := Ok(g);
    }
  }

  /** The last element of a sequence, if any. */
  function Last<T>(s: seq<T>): Option<T> {
    if s == [] then None else Some(s[|s| - 1])
  }
}
