/** Failure-carrying datatypes used throughout the model: an optional value,
    a value-or-error result, and a pass/fail outcome of a write. */
module Wrappers {

  datatype Option<+T> = None | Some(value: T)

  datatype Result<+T, +E> = Success(value: T) | Failure(error: E)

  datatype Outcome<+E> = Pass | Fail(error: E)

  /** An error as the Go code returns it: only its text is observable. */
  datatype Error = Error(message: string)
}
