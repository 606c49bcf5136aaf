/** Option and Result, the two Rust enums the loader returns through. */
module Wrappers {

  datatype Option<+T> = None | Some(value: T)

  /** Rust's Result; failure-compatible, so `:-` plays the role of `?`. */
  datatype Result<+T, +E> = Ok(value: T) | Err(error: E) {

    predicate IsFailure() {
      Err?
    }

    function PropagateFailure<U>(): Result<U, E>
      requires Err?
    {
      Err(error)
    }

    function Extract(): T
      requires Ok?
    {
      value
    }
  }
}
