/** Failure-compatible wrappers: the model's stand-ins for `undefined`, thrown errors and try/catch. */
module Wrappers {

  /** A value that may be absent, as an optional JSON property or `undefined` is. */
  datatype Option<+T> = None | Some(value: T)

  /** Either a value or the error an operation threw. */
  datatype Result<+R, +E> = Ok(value: R) | Err(error: E) {
    predicate IsFailure() { Err? }

    function PropagateFailure<U>(): Result<U, E>
      requires Err?
    {
      Err(error)
    }

    function Extract(): R
      requires Ok?
    {
      value
    }
  }

  /** The outcome of an operation that returns nothing but may throw. */
  datatype Outcome<+E> = Pass | Fail(error: E)
}
