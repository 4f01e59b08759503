/** Failure-compatible result types used for the controller's `(value, error)` returns. */
module Wrappers {

  datatype Option<+T> = None | Some(value: T)

  /** A value or the error that aborted its computation. */
  datatype Result<+T, +E> = Ok(value: T) | Err(error: E) {
    predicate IsFailure() { Err? }

    function PropagateFailure<U>(): Result<U, E>
      requires Err?
    {
      Err(error)
    }

    function Extract(): T
      requires Ok?
    {
      value
    }
  }

  /** A plain `error` return: nil (`Pass`) or an error value. */
  datatype Outcome<+E> = Pass | Fail(error: E)
}
