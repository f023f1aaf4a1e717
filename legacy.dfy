/** The older, single-file snapshot of the game. Its word type and its saved-game
    encoding are the same code as the split version's and are shared with it; it differs
    in its comparator, which does no duplicate counting, in the guess count at which a
    game is full, and it holds the rule that picks the day's goal. */
module Legacy {
  import opened Wrappers
  import opened Letters
  import opened JsonValues
  import opened Words
  import Games

  /** The guess count at which this version's `IsFull` holds. */
  const MaxGuesses := 5

  // ---------------------------------------------------------------------------
  // The comparator without duplicate counting

  /** The verdicts of this version, position by position: Correct for an exact match,
      otherwise WrongPosition for any letter the goal holds, otherwise WrongLetter. Every
      repeated guess letter is judged on its own, however few copies the goal holds. */
  function NaiveFeedback(guess: string, goal: string): (r: seq<LetterResult>)
    requires 5 <= |guess| && 5 <= |goal|
    ensures |r| == 5
    ensures forall i :: 0 <= i < 5 ==>
      (r[i] == Correct <==> guess[i] == goal[i])
      && (r[i] == WrongPosition <==> guess[i] != goal[i] && guess[i] in goal)
      && (r[i] == WrongLetter <==> guess[i] !in goal)
  {
    seq(5, i requires 0 <= i < 5 =>
      if guess[i] == goal[i] then Correct
      else if guess[i] in goal then WrongPosition
      else WrongLetter)
  }

  /** The comparator of this version: a result array that starts all WrongLetter and is
      overwritten position by position. */
  method CompWords(guess: Word, goal: Word) returns (result: seq<LetterResult>)
    requires 5 <= |guess.text| && 5 <= |goal.text|
    ensures result == NaiveFeedback(guess.text, goal.text)
  {
    var res := new LetterResult[5](_ => WrongLetter);
    for i := 0 to 5
      invariant forall j :: 0 <= j < i ==> res[j] == NaiveFeedback(guess.text, goal.text)[j]
      invariant forall j :: i <= j < 5 ==> res[j] == WrongLetter
    {
      var guessC := Get(guess, i);
      var goalC := Get(goal, i);
      if guessC == goalC {
        res[i] := Correct;
      } else if guessC in goal.text {
        res[i] := WrongPosition;
      }
    }
    result := res[..];
  }

  lemma {:induction false} MarksOfFresh(guess: string, res: seq<LetterResult>, c: char, k: nat)
    requires k <= |res| <= |guess|
    requires forall j :: 0 <= j < k ==> guess[j] != c
    ensures MarksBelow(guess, res, c, k) == 0
    decreases k
  {
    if k > 0 {
      MarksOfFresh(guess, res, c, k - 1);
    }
  }

  /** When the five guess letters are all different, duplicate counting changes nothing:
      both comparators give the same verdicts. */
  lemma DistinctLettersAgree(guess: string, goal: string)
    requires 5 <= |guess| && 5 <= |goal|
    requires forall i, j :: 0 <= i < j < 5 ==> guess[i] != guess[j]
    ensures Compare(guess, goal, 5) == NaiveFeedback(guess, goal)
  {
    forall i | 0 <= i < 5 ensures Compare(guess, goal, 5)[i] == NaiveFeedback(guess, goal)[i] {
      CompareAt(guess, goal, i);
      MarksOfFresh(guess, Compare(guess, goal, i), guess[i], i);
      if guess[i] in goal {
        assert guess[i] in multiset(goal);
      } else {
        assert guess[i] !in multiset(goal);
      }
    }
  }

  /** Guess "sassy" against goal "glass": this version marks three s's though the goal has
      two, while the duplicate-aware comparator leaves the third s a WrongLetter. */
  lemma SassyGlassExample()
    ensures NaiveFeedback("sassy", "glass") == [WrongPosition, WrongPosition, WrongPosition, Correct, WrongLetter]
    ensures Compare("sassy", "glass", 5) == [WrongPosition, WrongPosition, WrongPosition, WrongLetter, WrongLetter]
  {
    var guess, goal := "sassy", "glass";
    assert CountIn(goal, 's') == 2 && CountIn(goal, 'a') == 1 && 'y' !in goal;
    assert Compare(guess, goal, 1) == [WrongPosition];
    assert Compare(guess, goal, 2) == [WrongPosition, WrongPosition];
    assert Compare(guess, goal, 3) == [WrongPosition, WrongPosition, WrongPosition];
    assert Marks(guess, [WrongPosition, WrongPosition, WrongPosition], 's') == 2;
    assert Compare(guess, goal, 4) == [WrongPosition, WrongPosition, WrongPosition, WrongLetter];
  }

  // ---------------------------------------------------------------------------
  // The day's goal

  lemma {:induction false} MulAtLeast(k: int, length: int)
    requires k >= 1 && length > 0
    ensures k * length >= length
    decreases k
  {
    if k > 1 {
      MulAtLeast(k - 1, length);
      assert k * length == (k - 1) * length + length;
    }
  }

  /** A remainder is determined by any quotient-remainder split of the dividend. */
  lemma ModUnique(d: int, length: int, q: int, r: int)
    requires length > 0
    ensures 0 <= r < length && d == q * length + r ==> d % length == r
  {
    if 0 <= r < length && d == q * length + r {
      var q', r' := d / length, d % length;
      var k := q - q';
      assert k * length == q * length - q' * length;
      assert k * length == r' - r;
      if k >= 1 {
        MulAtLeast(k, length);
      } else if k <= -1 {
        MulAtLeast(-k, length);
      }
    }
  }

  /** The index of the day's goal in a list of `length` goals: the days since the epoch
      modulo the length. The source panics on an empty list (a remainder by zero) and on a
      date before the epoch (the negative day count does not convert). The index is below
      the length, differs from the day count by a whole number of lengths, and is the day
      count itself during the first pass through the list. */
  function GetDay(days: int, length: nat): (r: nat)
    requires days >= 0 && length > 0
    ensures r < length
    ensures (days - r) % length == 0
    ensures days < length ==> r == days
  {
    ModUnique(days - days % length, length, days / length, 0);
    ModUnique(days, length, 0, days);
    days % length
  }

  /** The same goal comes back every `length` days. */
  lemma GetDayPeriodic(days: int, length: nat)
    requires days >= 0 && length > 0
    ensures GetDay(days + length, length) == GetDay(days, length)
  {
    var q := days / length;
    assert (q + 1) * length == q * length + length;
    ModUnique(days + length, length, q + 1, days % length);
  }

  /** The day's goal: the entry at the day's index, built into a word. */
  function DailyWord(goals: seq<string>, days: int, dictionary: set<string>): (r: Result<Word>)
    requires |goals| > 0 && days >= 0
    ensures r.Ok? <==> IsValid(Word(goals[GetDay(days, |goals|)]), dictionary)
    ensures r.Ok? ==> r.value.text == goals[GetDay(days, |goals|)] && r.value.text in goals && IsValid(r.value, dictionary)
    ensures r.Err? ==> r.error in {WrongLength, NotAscii, NotAlphabetic, NotInDictionary}
    ensures r.Err? ==> r.error == From(goals[GetDay(days, |goals|)], dictionary).error
  {
    From(goals[GetDay(days, |goals|)], dictionary)
  }

  /** The day's goal depends on the day only through the index, so it repeats with the
      length of the list. */
  lemma DailyWordPeriodic(goals: seq<string>, days: int, dictionary: set<string>)
    requires |goals| > 0 && days >= 0
    ensures DailyWord(goals, days + |goals|, dictionary) == DailyWord(goals, days, dictionary)
  {
    GetDayPeriodic(days, |goals|);
    var k := GetDay(days, |goals|);
    assert goals[GetDay(days + |goals|, |goals|)] == goals[k];
  }

  // ---------------------------------------------------------------------------
  // The game

  /** A saved game with five or six valid guesses is full here, yet still loads, because
      loading allows six; a seventh guess makes loading fail. */
  lemma FullGamesStillLoad(goal: Word, guesses: seq<Word>, dictionary: set<string>)
    requires IsValid(goal, dictionary)
    requires forall n :: 0 <= n < |guesses| ==> IsValid(guesses[n], dictionary)
    requires MaxGuesses <= |guesses|
    ensures Games.Decode(Games.Encode(goal, guesses), dictionary).Ok? <==> |guesses| <= 6
  {
    Games.EncodeDecode(goal, guesses, dictionary);
  }

  class Game {
    var goal: Word
    var guesses: seq<Word>

    /** A new game has the given goal and no guesses. */
    constructor (word: Word)
      ensures goal == word && guesses == []
    {
      goal := word;
      guesses := [];
    }

    /** Won: there is a last guess and it equals the goal. */
    predicate IsWon()
      reads this
      ensures IsWon() <==> |guesses| > 0 && guesses[|guesses| - 1] == goal
    {
      match Games.Last(guesses)
      case None => false
      case Some(w) => w == goal
    }

    /** Full: at least five guesses. */
    predicate IsFull()
      reads this
      ensures IsFull() <==> |guesses| >= 5
    {
      |guesses| >= MaxGuesses
    }

    /** Lost: full, and the last guess is not the goal. */
    predicate IsLost()
      reads this
      ensures IsLost() <==> |guesses| >= 5 && guesses[|guesses| - 1] != goal
    {
      IsFull() && !IsWon()
    }

    /** Appends the guess, with no check that the game is full or already over. */
    method AddGuess(guess: Word)
      modifies this
      ensures goal == old(goal) && guesses == old(guesses) + [guess]
      ensures IsWon() <==> guess == goal
      ensures IsFull() <==> |old(guesses)| >= MaxGuesses - 1
      ensures IsLost() <==> |old(guesses)| >= MaxGuesses - 1 && guess != goal
    {
      guesses := guesses + [guess];
    }

    /** The comparison of a guess with this game's goal, by the comparator of this version. */
    method CompareToGoal(guess: Word) returns (result: seq<LetterResult>)
      requires 5 <= |guess.text| && 5 <= |goal.text|
      ensures result == NaiveFeedback(guess.text, goal.text)
    {
      result := CompWords(guess, goal);
    }

    /** The saved form of this game, the same record the split version writes. */
    function ToJson(): (j: Json)
      reads this
      ensures j.Obj? && j.fields.Keys == {"goal", "guesses"} && j.fields["goal"] == Str(goal.text)
      ensures j.fields["guesses"] == Arr(Games.Texts(guesses)) && |j.fields["guesses"].items| == |guesses|
      ensures forall n :: 0 <= n < |guesses| ==> j.fields["guesses"].items[n] == Str(guesses[n].text)
    {
      Games.Encode(goal, guesses)
    }

    /** A new game read from a saved value, by the same checks as the split version. */
    static method FromJson(value: Json, dictionary: set<string>) returns (r: Result<Game>)
      ensures r.Ok? <==> Games.Decode(value, dictionary).Ok?
      ensures r.Ok? ==>
                (fresh(r.value)
                 && r.value.goal == Games.Decode(value, dictionary).value.0
                 && r.value.guesses == Games.Decode(value, dictionary).value.1)
      ensures r.Err? ==> r.error == Games.Decode(value, dictionary).error
    {
      match Games.Decode(value, dictionary)
      case Err(e) =>
        r := Err(e);
      case Ok((goal, guesses)) =>
        var g := new Game(goal);
        g.guesses := guesses;
        r := Ok(g);
    }
  }
}
