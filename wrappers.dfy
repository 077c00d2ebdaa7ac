/** Option and Result, the two failure-compatible wrappers the parser returns. */
module Wrappers {

  datatype Option<+T> = None | Some(value: T)

  /** A Result whose failure side can be propagated with `:-`, as Rust's `?` does. */
  datatype Result<+T, +E> = Ok(value: T) | Err(error: E) {

    predicate IsFailure() {
      Err?
    }

    function PropagateFailure<U>(): Result<U, E>
      requires Err?
    {
      Err(error)
    }

    function Extract(): T
      requires Ok?
    {
      value
    }
  }
}
