/** Values that stand for Python's missing results and raised exceptions. */
module Outcomes {

  /** A value that may be absent (the source's empty-string "no letter"). */
  datatype Option<T> = None | Some(value: T)

  /** The exceptions the modelled Python code can raise. */
  datatype Error =
    | KeyError     // a letter missing from the score sheet
    | IndexError   // `word_list[0]` on an empty list
    | ValueError   // `max` of an empty list
    | TypeError    // a string indexed by a string

  /** The result of a call that either returns a value or raises. */
  datatype Result<T> = Ok(value: T) | Err(error: Error)

  /** The result of a call that returns nothing or raises. */
  datatype Outcome = Pass | Fail(error: Error)
}
