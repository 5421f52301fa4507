/** The result shapes shared by every module: Go's nil-able value, and Go's (value, error) pair. */
module Outcomes {

  datatype Option<+T> = None | Some(value: T)

  /** A call returns a value, returns an error, or panics. */
  datatype Outcome<+T, +E> = Ok(value: T) | Err(error: E) | Panic {
    /** Both failed, in the same way. */
    ghost predicate FailedLike<U>(other: Outcome<U, E>) {
      (Panic? && other.Panic?) || (Err? && other.Err? && error == other.error)
    }
  }
}
