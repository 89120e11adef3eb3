/** Failure-carrying return types and the error kinds the data model raises. */
module Wrappers {

  datatype Option<+T> = None | Some(value: T)

  datatype Result<+T, +E> = Ok(value: T) | Err(error: E)

  datatype Outcome<+E> = Pass | Fail(error: E)

  /** The exceptions of the data model. The first four are Python's
      ValueError (bad caller input), the last two its KeyError. */
  datatype Error =
    | InvalidPhone      // phone is not exactly ten digits
    | InvalidEmail      // email does not match local@domain.tld
    | InvalidBirthday   // birthday does not parse as DD.MM.YYYY
    | DateOutOfRange    // a calendar date that does not exist (e.g. 29.02 of a common year)
    | AlreadyExists     // duplicate key on insert
    | NotFound          // missing key, or missing phone value on edit
}
