/** The two result shapes every reader shares. */
module Wrappers {

  datatype Option<+T> = None | Some(value: T)

  /** A success value or a failure; compatible with `:-`. */
  datatype Result<+T, +E> = Ok(value: T) | Err(error: E) {
    predicate IsFailure() {
      Err?
    }

    function PropagateFailure<U>(): Result<U, E>
      requires Err?
    {
      Err(error)
    }

    function Extract(): T
      requires Ok?
    {
      value
    }
  }
}
