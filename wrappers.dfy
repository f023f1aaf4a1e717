/** Error values and result types shared by the word, game and legacy modules.
    The source returns its errors as fixed messages; each message is one variant here. */
module Wrappers {

  /** One variant per error message the core can return. */
  datatype Error =
    | WrongLength      // the trimmed text is not exactly five characters
    | NotAscii         // the trimmed text holds a non-ASCII character
    | NotAlphabetic    // the trimmed text holds a character outside a..z
    | NotInDictionary  // the trimmed text is not a valid guess
    | NotObject        // a saved game is not a JSON object
    | MissingGoal      // a saved game has no "goal" key
    | MissingGuesses   // a saved game has no "guesses" key
    | TooManyGuesses   // a saved game holds more than six valid guesses
    | GoalNotString    // the "goal" of a saved game is not a string

  /** The `Result<(), E>` of a check that either passes or fails with an error. */
  datatype Outcome = Pass | Fail(error: Error)

  /** The `Result<T, E>` of an operation that produces a value or fails with an error. */
  datatype Result<T> = Ok(value: T) | Err(error: Error)

  datatype Option<T> = None | Some(value: T)
}
