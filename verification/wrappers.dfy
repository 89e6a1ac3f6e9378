/** Failure-compatible result types shared by the parser and the pipeline. */
module Wrappers {

  datatype Option<+T> = None | Some(value: T)

  /** Either a value or the reason the run aborted. */
  datatype Result<+R, +E> = Ok(value: R) | Err(error: E) {

    predicate IsFailure() {
      Err?
    }

    function PropagateFailure<U>(): Result<U, E>
      requires Err?
    {
      Err(error)
    }

    function Extract(): R
      requires Ok?
    {
      value
    }
  }
}
