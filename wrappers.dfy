/** Failure-compatible result types shared by the model. */
module Wrappers {

  /** A value that may be absent (pandas NaN / NaT, an unparseable field). */
  datatype Option<+T> = None | Some(value: T)

  /** The outcome of a step that may raise a Python exception. */
  datatype Result<+T, +E> = Ok(value: T) | Err(error: E) {
    predicate IsFailure() { Err? }

    function PropagateFailure<U>(): Result<U, E>
      requires Err?
    {
      Err(error)
    }

    function Extract(): T
      requires Ok?
    {
      value
    }
  }
}
