/** The word of the split version of the game: validation on construction, the
    character accessor and the duplicate-aware comparison of a guess with a goal. */
module Words {
  import opened Wrappers
  import opened Letters
  import opened Text

  /** A guessable word. `text` is the string given to `From`, kept as it was, before
      trimming: only its trimmed form is checked. */
  datatype Word = Word(text: string)

  predicate IsAscii(s: string) {
    forall i :: 0 <= i < |s| ==> s[i] as int < 128
  }

  predicate AllLetters(s: string) {
    forall i :: 0 <= i < |s| ==> s[i] in Alphabet
  }

  lemma LettersAreAscii(s: string)
    ensures AllLetters(s) ==> IsAscii(s)
  {
    if AllLetters(s) {
      forall i | 0 <= i < |s| ensures s[i] as int < 128 {
        InAlphabet(s[i]);
      }
    }
  }

  /** The check chain run on the trimmed text. The checks run in a fixed order and the
      first that fails decides the error: the length (in characters), then ASCII, then
      the alphabet, then the dictionary. A text passes exactly when it is five letters
      of a..z found in the dictionary (the ASCII check is then implied). */
  function Validate(text: string, dictionary: set<string>): (r: Outcome)
    ensures r.Pass? <==> |text| == 5 && AllLetters(text) && text in dictionary
    ensures r == Fail(WrongLength) <==> |text| != 5
    ensures r == Fail(NotAscii) <==> |text| == 5 && !IsAscii(text)
    ensures r == Fail(NotAlphabetic) <==> |text| == 5 && IsAscii(text) && !AllLetters(text)
    ensures r == Fail(NotInDictionary) <==> |text| == 5 && AllLetters(text) && text !in dictionary
  {
    LettersAreAscii(text);
    if |text| != 5 then Fail(WrongLength)
    else if !IsAscii(text) then Fail(NotAscii)
    else if exists i :: 0 <= i < |text| && text[i] !in Alphabet then Fail(NotAlphabetic)
    else if text !in dictionary then Fail(NotInDictionary)
    else Pass
  }

  /** A word built from `text`: it succeeds exactly when the trimmed text is five letters
      found in the dictionary, it then keeps the untrimmed text, and otherwise it fails
      with the error of the first check that the trimmed text fails. */
  function From(text: string, dictionary: set<string>): (r: Result<Word>)
    ensures r.Ok? <==> |Trim(text)| == 5 && AllLetters(Trim(text)) && Trim(text) in dictionary
    ensures r.Ok? ==> r.value == Word(text) && |text| >= 5
    ensures r.Err? ==> r.error == Validate(Trim(text), dictionary).error
  {
    match Validate(Trim(text), dictionary)
    case Fail(e) => Err(e)
    case Pass => Ok(Word(text))
  }

  /** A word that `From` could have built with this dictionary. */
  predicate IsValid(w: Word, dictionary: set<string>) {
    Validate(Trim(w.text), dictionary).Pass?
  }

  /** A valid word is rebuilt as itself from its own text. */
  lemma FromValid(w: Word, dictionary: set<string>)
    requires IsValid(w, dictionary)
    ensures From(w.text, dictionary) == Ok(w)
  {
  }

  /** The character at zero-based position `index` of the stored (untrimmed) text.
      The source panics for an index of 5 or more, and its `unwrap` would panic on a
      text shorter than the index, which no word built by `From` is. */
  function Get(w: Word, index: nat): (c: char)
    requires index < 5
    requires index < |w.text|
    ensures c == w.text[index]
  {
    w.text[index]
  }

  /** Every index below 5 is readable on a word built by `From`; when the text does not
      start with whitespace, `Get` reads the validated letters themselves. */
  lemma GetOfBuiltWord(text: string, dictionary: set<string>, index: nat)
    requires From(text, dictionary).Ok?
    requires index < 5
    ensures index < |text|
    ensures !IsWhitespace(text[0]) ==>
      Get(From(text, dictionary).value, index) == Trim(text)[index]
      && Get(From(text, dictionary).value, index) in Alphabet
  {
  }

  /** Because the untrimmed text is stored, a word given with a leading space is
      accepted, yet its first character is that space. */
  lemma LeadingSpaceIsKept()
    ensures From(" abcde", {"abcde"}) == Ok(Word(" abcde"))
    ensures Get(Word(" abcde"), 0) == ' '
  {
    assert SkipForward(" abcde", 1) == 1;
    assert SkipBackward(" abcde", 1, 6) == 6;
    assert Trim(" abcde") == "abcde";
    assert AllLetters("abcde") by {
      InAlphabet('a'); InAlphabet('b'); InAlphabet('c'); InAlphabet('d'); InAlphabet('e');
    }
  }

  // ---------------------------------------------------------------------------
  // The comparison of a guess with a goal

  /** How often the goal's text holds `c`. */
  function CountIn(s: string, c: char): nat {
    multiset(s)[c]
  }

  /** The count a letter-count map holds for `c`; a letter without an entry counts zero. */
  function Lookup(m: map<char, nat>, c: char): nat {
    if c in m then m[c] else 0
  }

  /** The letter counts the comparison starts from: a key for every character of `s` and
      nothing else, mapped to how often it occurs (the fold into a `HashMap`). */
  function LetterCounts(s: string): map<char, nat> {
    if s == [] then map[]
    else
      var acc := LetterCounts(s[..|s| - 1]);
      var c := s[|s| - 1];
      if c !in acc then acc[c := 1] else acc[c := acc[c] + 1]
  }

  /** The letter counts have a key for every character of `s` and nothing else, mapped to
      how often it occurs. */
  lemma {:induction false} LetterCountsSound(s: string)
    ensures forall c :: c in LetterCounts(s) <==> c in s
    ensures forall c :: c in LetterCounts(s) ==> LetterCounts(s)[c] == CountIn(s, c)
    decreases |s|
  {
    if s != [] {
      var init, c := s[..|s| - 1], s[|s| - 1];
      assert s == init + [c];
      LetterCountsSound(init);
    }
  }

  /** The number of positions below `|res|` where the guess holds `c` and the verdict
      spent a copy of it (Correct or WrongPosition). */
  function Marks(guess: string, res: seq<LetterResult>, c: char): (n: nat)
    requires |res| <= |guess|
    ensures n <= |res|
  {
    MarksBelow(guess, res, c, |res|)
  }

  /** The spent copies of `c` among the verdicts at positions below `k`. */
  function MarksBelow(guess: string, res: seq<LetterResult>, c: char, k: nat): (n: nat)
    requires k <= |res| <= |guess|
    ensures n <= k
  {
    if k == 0 then 0
    else MarksBelow(guess, res, c, k - 1) + (if guess[k - 1] == c && res[k - 1] != WrongLetter then 1 else 0)
  }

  /** Later verdicts do not change the count below `k`. */
  lemma {:induction false} MarksBelowFrame(guess: string, res: seq<LetterResult>, more: seq<LetterResult>, c: char, k: nat)
    requires k <= |res| && |res| + |more| <= |guess|
    ensures MarksBelow(guess, res + more, c, k) == MarksBelow(guess, res, c, k)
    decreases k
  {
    if k > 0 {
      MarksBelowFrame(guess, res, more, c, k - 1);
      assert (res + more)[k - 1] == res[k - 1];
    }
  }

  /** Appending one verdict adds one spent copy of the guess letter at that position, if
      the verdict spends one, and none of any other letter. */
  lemma MarksStep(guess: string, res: seq<LetterResult>, v: LetterResult)
    requires |res| < |guess|
    ensures forall c ::
      Marks(guess, res + [v], c) == Marks(guess, res, c) + (if guess[|res|] == c && v != WrongLetter then 1 else 0)
  {
    forall c ensures MarksBelow(guess, res + [v], c, |res|) == MarksBelow(guess, res, c, |res|) {
      MarksBelowFrame(guess, res, [v], c, |res|);
    }
  }

  /** The loop invariant of the comparator: every letter's count left in `m` is the goal's
      count of it minus the copies the verdicts `res` have spent. */
  predicate CountsAgree(m: map<char, nat>, guess: string, goal: string, res: seq<LetterResult>)
    requires |res| <= |guess|
  {
    forall c :: Lookup(m, c) == CountIn(goal, c) - Marks(guess, res, c)
  }

  /** A WrongLetter verdict spends nothing, so the counts stay as they are. */
  lemma KeepStep(m: map<char, nat>, guess: string, goal: string, res: seq<LetterResult>)
    requires |res| < |guess| && CountsAgree(m, guess, goal, res)
    ensures CountsAgree(m, guess, goal, res + [WrongLetter])
  {
    MarksStep(guess, res, WrongLetter);
  }

  /** A Correct or WrongPosition verdict spends one copy of the guess letter `c`, whose
      count was `count`. */
  lemma SpendStep(m: map<char, nat>, guess: string, goal: string, res: seq<LetterResult>, v: LetterResult, c: char, count: nat)
    requires |res| < |guess| && CountsAgree(m, guess, goal, res)
    requires v != WrongLetter && c == guess[|res|] && count == Lookup(m, c) && count > 0
    ensures CountsAgree(m[c := count - 1], guess, goal, res + [v])
  {
    MarksStep(guess, res, v);
  }

  /** The verdict at one position, given how many copies of the guess letter are left. */
  function Verdict(g: char, t: char, goal: string, remaining: int): LetterResult {
    if remaining <= 0 then WrongLetter
    else if g == t then Correct
    else if g in goal then WrongPosition
    else WrongLetter
  }

  /** The verdicts for positions 0..n-1, left to right. At each position the copies left
      are the goal's count of the guess letter minus the copies spent so far. */
  function Compare(guess: string, goal: string, n: nat): (r: seq<LetterResult>)
    requires n <= 5 && 5 <= |guess| && 5 <= |goal|
    ensures |r| == n
  {
    if n == 0 then []
    else
      var prev := Compare(guess, goal, n - 1);
      prev + [Step(guess, goal, prev)]
  }

  /** The verdict at position `|prev|`, after the verdicts `prev` for the positions before
      it: the copies of the guess letter left are the goal's count minus those spent. */
  function Step(guess: string, goal: string, prev: seq<LetterResult>): LetterResult
    requires |prev| < 5 <= |guess| && 5 <= |goal|
  {
    var c := guess[|prev|];
    Verdict(c, goal[|prev|], goal, CountIn(goal, c) - Marks(guess, prev, c))
  }

  /** What the verdicts mean: a Correct verdict is an exact match, a WrongPosition verdict
      is a letter the goal holds at another position, and a letter the goal lacks is always
      a WrongLetter. */
  lemma {:induction false} CompareSound(guess: string, goal: string, n: nat)
    requires n <= 5 && 5 <= |guess| && 5 <= |goal|
    ensures var r := Compare(guess, goal, n);
      && (forall i :: 0 <= i < n && r[i] == Correct ==> guess[i] == goal[i])
      && (forall i :: 0 <= i < n && r[i] == WrongPosition ==> guess[i] != goal[i] && guess[i] in goal)
      && (forall i :: 0 <= i < n && guess[i] !in goal ==> r[i] == WrongLetter)
    decreases n
  {
    if n > 0 {
      CompareSound(guess, goal, n - 1);
      var prev := Compare(guess, goal, n - 1);
      assert Compare(guess, goal, n) == prev + [Step(guess, goal, prev)];
    }
  }

  /** No letter is marked (Correct or WrongPosition) more often than the goal holds it. */
  lemma {:induction false} CompareWithinCounts(guess: string, goal: string, n: nat)
    requires n <= 5 && 5 <= |guess| && 5 <= |goal|
    ensures forall c :: Marks(guess, Compare(guess, goal, n), c) <= CountIn(goal, c)
    decreases n
  {
    if n > 0 {
      CompareWithinCounts(guess, goal, n - 1);
      var prev := Compare(guess, goal, n - 1);
      var v := Step(guess, goal, prev);
      assert Compare(guess, goal, n) == prev + [v];
      MarksStep(guess, prev, v);
    }
  }

  /** The comparison of two words, as the game shows it. */
  function Feedback(guess: Word, goal: Word): seq<LetterResult>
    requires 5 <= |guess.text| && 5 <= |goal.text|
  {
    Compare(guess.text, goal.text, 5)
  }

  /** Position `i` of a comparison of `n` positions is the step taken after the verdicts
      for the positions before it. */
  lemma {:induction false} CompareIndex(guess: string, goal: string, n: nat, i: nat)
    requires i < n <= 5 && 5 <= |guess| && 5 <= |goal|
    ensures Compare(guess, goal, n)[i] == Step(guess, goal, Compare(guess, goal, i))
    decreases n
  {
    var prev := Compare(guess, goal, n - 1);
    assert Compare(guess, goal, n) == prev + [Step(guess, goal, prev)];
    if i < n - 1 {
      CompareIndex(guess, goal, n - 1, i);
    }
  }

  /** The verdict at position `i` of the full comparison depends only on what the
      positions before it spent. */
  lemma CompareAt(guess: string, goal: string, i: nat)
    requires i < 5 && 5 <= |guess| && 5 <= |goal|
    ensures Compare(guess, goal, 5)[i]
      == Verdict(guess[i], goal[i], goal,
                 CountIn(goal, guess[i]) - Marks(guess, Compare(guess, goal, i), guess[i]))
  {
    CompareIndex(guess, goal, 5, i);
  }

  /** A position is a WrongLetter exactly when the earlier positions have already spent
      every copy of its letter that the goal holds. */
  lemma WrongLetterIffSpent(guess: string, goal: string, i: nat)
    requires i < 5 && 5 <= |guess| && 5 <= |goal|
    ensures Compare(guess, goal, 5)[i] == WrongLetter
      <==> Marks(guess, Compare(guess, goal, i), guess[i]) == CountIn(goal, guess[i])
  {
    CompareAt(guess, goal, i);
    CompareWithinCounts(guess, goal, i);
    var c := guess[i];
    if CountIn(goal, c) > 0 {
      assert c in multiset(goal);
    }
  }

  /** The copies of `c` spent below `k` when every verdict there is Correct: the count of
      `c` in the first `k` characters. */
  lemma {:induction false} MarksAllCorrect(guess: string, res: seq<LetterResult>, c: char, k: nat)
    requires k <= |res| <= |guess|
    requires forall j :: 0 <= j < k ==> res[j] == Correct
    ensures MarksBelow(guess, res, c, k) == CountIn(guess[..k], c)
    decreases k
  {
    if k > 0 {
      MarksAllCorrect(guess, res, c, k - 1);
      assert guess[..k] == guess[..k - 1] + [guess[k - 1]];
    }
  }

  /** The first `k + 1` characters hold `t[k]` more often than the first `k`, and no
      prefix holds a character more often than the whole text. */
  lemma PrefixCount(t: string, k: nat)
    requires k < |t|
    ensures CountIn(t[..k + 1], t[k]) == CountIn(t[..k], t[k]) + 1
    ensures CountIn(t[..k + 1], t[k]) <= CountIn(t, t[k])
  {
    assert t[..k + 1] == t[..k] + [t[k]];
    assert t == t[..k + 1] + t[k + 1..];
    assert multiset(t) == multiset(t[..k + 1]) + multiset(t[k + 1..]);
  }

  /** A guess equal to the goal is Correct everywhere. */
  lemma {:induction false} CompareSelf(t: string, n: nat)
    requires n <= 5 && 5 <= |t|
    ensures forall i :: 0 <= i < n ==> Compare(t, t, n)[i] == Correct
    decreases n
  {
    if n > 0 {
      CompareSelf(t, n - 1);
      var prev := Compare(t, t, n - 1);
      var c := t[n - 1];
      MarksAllCorrect(t, prev, c, n - 1);
      PrefixCount(t, n - 1);
      assert Step(t, t, prev) == Correct;
      assert Compare(t, t, n) == prev + [Correct];
    }
  }

  /** Goal "ababa" against guess "aabbb": the second b cannot be Correct twice over, and the
      last b finds both copies spent. */
  lemma DuplicateLettersExample()
    ensures Compare("aabbb", "ababa", 5) == [Correct, WrongPosition, WrongPosition, Correct, WrongLetter]
  {
    var guess, goal := "aabbb", "ababa";
    assert CountIn(goal, 'a') == 3 && CountIn(goal, 'b') == 2;
    assert Compare(guess, goal, 1) == [Correct];
    assert Compare(guess, goal, 2) == [Correct, WrongPosition];
    assert Compare(guess, goal, 3) == [Correct, WrongPosition, WrongPosition];
    assert Compare(guess, goal, 4) == [Correct, WrongPosition, WrongPosition, Correct];
    assert Marks(guess, [Correct, WrongPosition, WrongPosition, Correct], 'b') == 2;
  }

  /** The comparison is order-sensitive: the first b of "bbxyz" spends the only b of
      "abcde" as a WrongPosition, so the exact match right after it is a WrongLetter. */
  lemma OrderSensitiveExample()
    ensures Compare("bbxyz", "abcde", 5) == [WrongPosition, WrongLetter, WrongLetter, WrongLetter, WrongLetter]
  {
    OrderSensitivePrefix();
    assert 'x' !in "abcde" && 'y' !in "abcde" && 'z' !in "abcde";
  }

  /** The first two verdicts of the order-sensitive example. */
  lemma OrderSensitivePrefix()
    ensures Compare("bbxyz", "abcde", 2) == [WrongPosition, WrongLetter]
  {
    var guess, goal := "bbxyz", "abcde";
    assert CountIn(goal, 'b') == 1;
    assert Compare(guess, goal, 1) == [WrongPosition];
    assert Marks(guess, [WrongPosition], 'b') == 1;
  }

  /** Before any position is compared, the letter counts are the goal's counts. */
  lemma InitialCounts(guess: string, goal: string)
    requires 5 <= |guess|
    ensures CountsAgree(LetterCounts(goal), guess, goal, [])
  {
    var m := LetterCounts(goal);
    LetterCountsSound(goal);
    forall c ensures Lookup(m, c) == CountIn(goal, c) - Marks(guess, [], c) {
      if c !in m {
        assert c !in multiset(goal);
      }
    }
  }

  /** With the counts left after the verdicts `prev`, the next verdict is the one the
      comparison takes at position `|prev|`. */
  lemma NextVerdict(m: map<char, nat>, guess: string, goal: string, prev: seq<LetterResult>)
    requires |prev| < 5 <= |guess| && 5 <= |goal|
    requires prev == Compare(guess, goal, |prev|) && CountsAgree(m, guess, goal, prev)
    ensures Compare(guess, goal, |prev| + 1)
      == prev + [Verdict(guess[|prev|], goal[|prev|], goal, Lookup(m, guess[|prev|]))]
  {
  }

  /** The comparator: counts the goal's letters, then walks positions 0..4 left to right,
      spending one count per Correct or WrongPosition mark. */
  method Comp(guess: Word, goal: Word) returns (result: seq<LetterResult>)
    requires 5 <= |guess.text| && 5 <= |goal.text|
    ensures result == Feedback(guess, goal)
  {
    var res := new LetterResult[5](_ => WrongLetter);
    var letterCount := LetterCounts(goal.text);
    InitialCounts(guess.text, goal.text);
    for i := 0 to 5
      invariant res[..i] == Compare(guess.text, goal.text, i)
      invariant forall j :: i <= j < 5 ==> res[j] == WrongLetter
      invariant CountsAgree(letterCount, guess.text, goal.text, res[..i])
    {
      var selfC := Get(guess, i);
      var goalC := Get(goal, i);
      var count := Lookup(letterCount, selfC);
      ghost var prev := res[..i];
      ghost var v := Verdict(selfC, goalC, goal.text, count);
      NextVerdict(letterCount, guess.text, goal.text, prev);
      if count <= 0 {
        KeepStep(letterCount, guess.text, goal.text, prev);
        assert res[..i + 1] == prev + [v];
        continue;
      }
      if selfC == goalC {
        res[i] := Correct;
        SpendStep(letterCount, guess.text, goal.text, prev, Correct, selfC, count);
        letterCount := letterCount[selfC := count - 1];
      } else if selfC in goal.text {
        res[i] := WrongPosition;
        SpendStep(letterCount, guess.text, goal.text, prev, WrongPosition, selfC, count);
        letterCount := letterCount[selfC := count - 1];
      } else {
        KeepStep(letterCount, guess.text, goal.text, prev);
      }
      assert res[..i + 1] == prev + [v];
    }
    result := res[..];
  }
}
