/** Failure-carrying result types shared by the validators and the gate. */
module Wrappers {

  datatype Option<+T> = None | Some(value: T)

  /** A value, or the error the source would have thrown instead. */
  datatype Result<+R, +E> = Success(value: R) | Failure(error: E)

  /** A check that either passes or fails with an error (a Kotlin `require`). */
  datatype Outcome<+E> = Pass | Fail(error: E)
}
