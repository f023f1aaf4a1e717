# cmdle game core in Dafny

This project models the game logic of cmdle, a command-line Wordle clone, and proves properties of it. A player guesses five-letter words against a hidden goal and gets a verdict for each letter: `Correct`, `WrongPosition` or `WrongLetter`. A game keeps the goal and the guesses made so far. From them it derives whether the game is won, full or lost, and a 26-entry board of letter statuses (`Unused`, `NotPresent`, `FoundLetter`, `FoundPosition`). A game is saved as a JSON record `{goal, guesses}`.

The repository holds two versions of this logic, modelled as separate modules:

- the split version, `src/word.rs` and `src/game.rs`: modules `Words` and `Games`;
- the older single-file snapshot, `src/lib.rs`: module `Legacy`.

Shared modules:

- `Wrappers`: the error values and result types.
- `Letters`: `LetterResult`, `LetterStatus`, and the alphabet a..z of `src/lib.rs:5-8`. `src/word.rs` imports `LetterResult` and `ALPHABET` from the crate root, and `src/game.rs` imports `LetterResult`, `LetterStatus` and `ALPHABET` from it; the crate root of the split version is not part of this model. The four status variants are the ones the code uses.
- `Text`: Rust's `str::trim`, as stripping characters with the White_Space property from both ends.
- `JsonValues`: an abstract JSON value with objects (a map), arrays, strings and everything else.

The older snapshot's `Word::from`, `validate` and `get` (`src/lib.rs:203-237`) are the same code as `src/word.rs:10-44`; only the name of the alphabet constant differs. They are modelled once, in `Words`, and `Legacy` uses that. The older `to_json`/`from_json` (`src/lib.rs:131-176`) are likewise the same as `src/game.rs:145-190`. They are modelled once, as `Games.Encode` and `Games.Decode`.

How the code departs from its intended design, modelled as the code does it:

- `add_guess` appends without checking whether the game is full or over. There is no `GameFull` error.
- On the board, a later `WrongLetter` verdict overwrites a letter's `FoundPosition`. The board is therefore not monotone (`Games.DowngradeExample`).
- A word keeps the untrimmed text it was built from. Only the trimmed text is validated. So `" abcde"` is accepted, but its `Get(0)` is the space (`Words.LeadingSpaceIsKept`). The text is not lower-cased.
- The older version is full at 5 guesses. Yet both versions load saved games with up to 6 guesses.

Inputs and effects the model receives as parameters:

- The guess dictionary is a `set<string>`. The source reads it from `guesses.json` on every check.
- The goal list is a `seq<string>`. The source reads it from `goals.json`.
- The number of days since the epoch is an `int`. The source computes it from the clock.
- Panics become preconditions: an index of 5 or more in `get`; a guess character with no alphabet position in `letter_list`; an empty goal list or a date before the epoch in `get_day`.

## Model

| member | source | states |
|---|---|---|
| `Letters.InAlphabet` | src/lib.rs:5-8 | a character is in the alphabet exactly when it is between 'a' and 'z' |
| `Letters.AlphabetPosition` | src/game.rs:76-79 | the position found is below 26, holds the letter, and is the only position that does |
| `Text.Trim` | src/word.rs:12 | the trimmed text is a contiguous part of the input; everything cut from either end is whitespace; the result neither starts nor ends with whitespace; a text that does not start with whitespace keeps its first characters |
| `Words.Validate` | src/word.rs:16-35 | checks run in order (length 5, ASCII, alphabet, dictionary) and the first failure decides the error, each error stated as an if-and-only-if; the text passes exactly when it is five letters a..z in the dictionary |
| `Words.From` | src/word.rs:11-14 | succeeds exactly when the trimmed text is five letters a..z in the dictionary; on success keeps the untrimmed text (so it has at least 5 characters); on failure returns the error the check chain gives for the trimmed text |
| `Words.Get` | src/word.rs:37-44 | requires an index below 5 (the source panics otherwise) and returns that character of the stored, untrimmed text |
| `Words.GetOfBuiltWord` | src/word.rs:37-44 | on a word built by `From`, every index below 5 is readable; without leading whitespace, `Get` returns the validated letter at that position |
| `Words.FromValid` | src/word.rs:11-14 | a word that passes validation is rebuilt as itself from its own stored text |
| `Words.LeadingSpaceIsKept` | src/word.rs:11-14 | `" abcde"` is accepted with the dictionary `{"abcde"}`; the word keeps the space, and `Get(0)` returns it |
| `Words.LetterCountsSound` | src/word.rs:54-65 | the count map folded from the goal has a key for exactly the goal's characters, each mapped to how often it occurs |
| `Words.Compare` | src/word.rs:67-84 | reference definition of the comparator: n verdicts for positions 0..n-1; each verdict comes from the goal's count of the guess letter minus the copies already spent |
| `Words.CompareSound` | src/word.rs:71-83 | a `Correct` verdict is an exact match; a `WrongPosition` verdict is a mismatch whose letter the goal holds; a letter absent from the goal is always `WrongLetter` |
| `Words.CompareWithinCounts` | src/word.rs:71-83 | no letter gets more `Correct`/`WrongPosition` marks than the goal has copies of it |
| `Words.CompareAt` | src/word.rs:71-83 | the verdict at position i depends only on the copies that positions 0..i-1 spent |
| `Words.WrongLetterIffSpent` | src/word.rs:71-75 | position i is `WrongLetter` if and only if the earlier positions have spent every copy of its letter in the goal |
| `Words.CompareSelf` | src/word.rs:77-79 | a guess equal to the goal is `Correct` at every position |
| `Words.DuplicateLettersExample` | src/word.rs:67-84 | goal "ababa", guess "aabbb" give [Correct, WrongPosition, WrongPosition, Correct, WrongLetter] |
| `Words.OrderSensitiveExample` | src/word.rs:71-83 | goal "abcde", guess "bbxyz" give [WrongPosition, WrongLetter, WrongLetter, WrongLetter, WrongLetter]: the first b spends the only copy, so the exact match after it is `WrongLetter` |
| `Words.Comp` | src/word.rs:50-86 | the comparator (count map and a result array updated in a loop over positions 0..4) returns exactly `Compare` of the two texts |
| `Games.Update` | src/game.rs:81-93 | one verdict never leaves a letter `Unused`; it gives `NotPresent` iff the verdict is `WrongLetter`; `FoundPosition` iff `Correct`, or `WrongPosition` on a letter already at `FoundPosition`; `FoundLetter` iff `WrongPosition` on any other letter |
| `Games.ApplyVerdicts` | src/game.rs:74-94 | applying one guess's verdicts, position by position, keeps the board at 26 entries and leaves the entry of every letter not among the positions applied unchanged |
| `Games.Board` | src/game.rs:69-99 | reference definition of the board: a fold over the guesses in order, starting from 26 `Unused` entries |
| `Games.BoardUnused` | src/game.rs:69-80 | a letter is `Unused` if and only if no guess holds it in its first five positions |
| `Games.BoardTruthful` | src/game.rs:81-93 | `FoundPosition` only for a letter at one of the goal's five positions; `FoundLetter` only for a letter of the goal |
| `Games.LastVerdictDecides` | src/game.rs:81-93 | the verdict on a letter's last occurrence in the latest guess decides its status, whatever earlier guesses found: `Correct` gives `FoundPosition`, `WrongLetter` gives `NotPresent`, `WrongPosition` gives `FoundLetter` or `FoundPosition` |
| `Games.WrongPositionDecides` | src/game.rs:81-93 | after a last `WrongPosition` verdict on a letter, its status is `FoundPosition` exactly when it had that status just before this position (from earlier guesses or earlier positions of the latest one), and `FoundLetter` otherwise |
| `Games.DowngradeExample` | src/game.rs:90-92 | goal "abcde" and guess "aaxyz": position 0 is `Correct`, yet the board ends with a as `NotPresent` |
| `Games.SecondCopyExample` | src/word.rs:71-79 | goal "abcde", guess "aaxyz": the first a is `Correct` and spends the only copy; the second a is `WrongLetter` |
| `Games.Texts` | src/game.rs:182-185 | the saved guess array has one string per guess, in order, each the stored text |
| `Games.Surviving` | src/game.rs:156-166 | the loaded guesses number at most the saved entries, and each is a word valid for the dictionary |
| `Games.SurvivingAppend` | src/game.rs:156-166 | the guesses kept from two arrays one after the other are those kept from the first followed by those kept from the second |
| `Games.SurvivingOne` | src/game.rs:156-166 | a single entry is kept exactly when it is a string that builds a word, and then as that word; any other entry is dropped |
| `Games.Decode` | src/game.rs:145-178 | errors in order: not an object, no "goal", no "guesses", more than six surviving guesses, a goal that is not a string (each stated as an if-and-only-if); once those pass, loading succeeds iff building the goal word succeeds, and fails with the builder's error otherwise; a success holds the word built from the saved goal string and exactly the guesses that survive filtering, at most six |
| `Games.Encode` | src/game.rs:180-190 | an object with exactly the keys "goal" (the goal's text) and "guesses", an array whose entry n is the text of guess n |
| `Games.EncodeDecode` | src/game.rs:145-190 | saving then loading a game of valid words returns the same goal and guesses when there are at most six guesses, and `TooManyGuesses` otherwise |
| `Games.DecodeEncode` | src/game.rs:31-52 | a value of the saved shape (two keys, a valid string goal, at most six valid string guesses) loads, and saving the result gives the same value back |
| `Games.Game.constructor` | src/game.rs:62-67 | a new game has the given goal and no guesses |
| `Games.Game.IsWon` | src/game.rs:109-115 | won if and only if there is a last guess and it equals the goal |
| `Games.Game.IsFull` | src/game.rs:121-123 | full if and only if there are at least 6 guesses |
| `Games.Game.IsLost` | src/game.rs:117-119 | lost if and only if there are at least 6 guesses and the last is not the goal |
| `Games.Game.AddGuess` | src/game.rs:125-127 | appends exactly the guess; goal and earlier guesses unchanged; no fullness check. Afterwards: won iff the guess is the goal; full iff 5 or more guesses came before; lost iff both full and not won |
| `Games.Game.CompareToGoal` | src/game.rs:141-143 | the comparison of a guess with the game's goal is `Compare` of their texts |
| `Games.Game.LetterList` | src/game.rs:69-99 | the nested loops over guesses and positions, on a 26-entry array, return exactly `Board` of the game's goal and guesses |
| `Games.Game.ToJson` | src/game.rs:180-190 | an object with exactly the keys "goal" (the goal's stored text) and "guesses", an array whose entry n is the stored text of guess n |
| `Games.Game.FromJson` | src/game.rs:145-178 | succeeds iff `Decode` succeeds; the new game then holds the decoded goal and guesses; otherwise returns `Decode`'s error |
| `Legacy.NaiveFeedback` | src/lib.rs:351-363 | at each of the 5 positions: `Correct` iff the letters match; `WrongPosition` iff they differ and the goal holds the letter; `WrongLetter` iff the goal lacks it. No copies are counted |
| `Legacy.CompWords` | src/lib.rs:351-363 | the loop over a result array initialised to `WrongLetter` returns exactly `NaiveFeedback` |
| `Legacy.DistinctLettersAgree` | src/lib.rs:353-361 | when the five guess letters are all different, the older and newer comparators agree |
| `Legacy.SassyGlassExample` | src/lib.rs:356-360 | guess "sassy", goal "glass": the older comparator marks three s's (goal has two); the newer one leaves the third s `WrongLetter` |
| `Legacy.GetDay` | src/lib.rs:246-257 | requires a non-negative day count and a non-empty list; the index is below the length, differs from the day count by a multiple of the length, and equals the day count before the first wrap |
| `Legacy.GetDayPeriodic` | src/lib.rs:256 | the index repeats every `length` days |
| `Legacy.DailyWord` | src/lib.rs:259-272 | the result is a word iff the goal-list entry at the day's index builds a valid word, and then its text is that entry; otherwise the error `From` gives for that entry |
| `Legacy.DailyWordPeriodic` | src/lib.rs:259-272 | the day's goal repeats every `|goals|` days |
| `Legacy.FullGamesStillLoad` | src/lib.rs:154-156 | a saved game of at least 5 valid guesses is full in this version, yet it loads if and only if it holds at most 6 |
| `Legacy.Game.constructor` | src/lib.rs:80-85 | a new game has the given goal and no guesses |
| `Legacy.Game.IsWon` | src/lib.rs:95-101 | won if and only if there is a last guess and it equals the goal |
| `Legacy.Game.IsFull` | src/lib.rs:107-109 | full if and only if there are at least 5 guesses |
| `Legacy.Game.IsLost` | src/lib.rs:103-105 | lost if and only if there are at least 5 guesses and the last is not the goal |
| `Legacy.Game.AddGuess` | src/lib.rs:111-113 | appends exactly the guess; goal and earlier guesses unchanged; no fullness check. Afterwards: won iff the guess is the goal; full iff 4 or more guesses came before |
| `Legacy.Game.CompareToGoal` | src/lib.rs:127-129 | the comparison of a guess with the goal is `NaiveFeedback` of their texts |
| `Legacy.Game.ToJson` | src/lib.rs:166-176 | an object with exactly the keys "goal" (the goal's text) and "guesses", an array whose entry n is the text of guess n |
| `Legacy.Game.FromJson` | src/lib.rs:131-164 | succeeds iff `Decode` succeeds, with the same checks and error order as the split version; the new game holds the decoded goal and guesses |

## Left out

- File I/O is not modelled. This covers `is_valid_guess`'s and `get_daily_word`'s file reads and their read errors, `from_file`, `save_to_file`, all of `src/json_func.rs`, and the JSON text parser and printer of the `json` crate. The dictionary, the goal list and the JSON value are parameters instead.
- The clock and the epoch date of `get_day` are not modelled. The number of days since the epoch is a parameter.
- `Legacy.DailyWord`: takes the goal list as strings. A non-string entry, on which the source panics (`expect`), is not modelled.
- `src/config.rs`, `src/main.rs`, `setup_cwd` and `leak_into_str` are not modelled. They are CLI parsing, process-wide working-directory changes and string leaking.
- The `Display` implementations are not modelled: they are presentation only.
- The accessors `as_string`, `guess_num`, `get_goal` and `get_guess_iterator` are not modelled separately. They return a field, and the model reads the fields directly.
- Rust's `chars()` is a `seq<char>` of Unicode scalar values. Character counts and indexing match it. Byte-level UTF-8 is not modelled.
- The JSON value keeps only objects, arrays and strings. Numbers, booleans and null are one `Other` value, which the loader treats like any non-string. Object key order is not modelled.
- The JSON loader takes its value by move and removes keys from its own copy, which no caller can see; the model reads the keys without removing them.
- Nothing is modelled for the intended `GameFull` error or a monotone board: the code has neither.
