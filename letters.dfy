/** The per-position verdict of a comparison, the per-letter status of the keyboard
    board, and the 26-letter alphabet shared by both versions of the game. */
module Letters {

  /** Feedback for one letter at one position of a guess. */
  datatype LetterResult = Correct | WrongPosition | WrongLetter

  /** What the board shows for one letter of the alphabet. */
  datatype LetterStatus = Unused | NotPresent | FoundLetter | FoundPosition

  /** The allowed characters 'a', 'b', ..., 'z', in order: index k holds the lower-case
      letter k places after 'a'. */
  const Alphabet: string := LowerCase()

  /** The 26 lower-case letters, in order. */
  function LowerCase(): (s: string)
    ensures |s| == 26 && forall k :: 0 <= k < 26 ==> s[k] == LetterAt(k)
  {
    seq(26, LetterAt)
  }

  /** The lower-case letter `k` places after 'a'. */
  function LetterAt(k: int): char
    requires 0 <= k < 26
  {
    ('a' as int + k) as char
  }

  /** Every character of the alphabet is the lower-case letter with that offset from 'a'. */
  lemma AlphabetCodes()
    ensures |Alphabet| == 26
    ensures forall k :: 0 <= k < 26 ==> Alphabet[k] as int == 'a' as int + k
  {
  }

  /** Membership in the alphabet is exactly the range 'a'..'z', so every letter is ASCII. */
  lemma InAlphabet(c: char)
    ensures c in Alphabet <==> 'a' <= c <= 'z'
  {
    AlphabetCodes();
    if 'a' <= c <= 'z' {
      var k := c as int - 'a' as int;
      assert Alphabet[k] == c;
    }
  }

  /** The index of `c` in the alphabet: the position the source finds by searching it. */
  function AlphabetPosition(c: char): (k: nat)
    requires c in Alphabet
    ensures k < |Alphabet| && Alphabet[k] == c
    ensures forall j :: 0 <= j < |Alphabet| && Alphabet[j] == c ==> j == k
  {
    AlphabetCodes();
    InAlphabet(c);
    c as int - 'a' as int
  }
}
