/** Failure-carrying values: Go's panics and missing entries become data. */
module Outcome {
  datatype Option<+T> = None | Some(value: T)

  /**
   * `Fail` stands for a fatal condition (a Go panic) that aborts the run;
   * `:-` propagates it the way the panic unwinds.
   */
  datatype Result<+T, +E> = Ok(value: T) | Fail(error: E) {
    predicate IsFailure() {
      Fail?
    }

    function PropagateFailure<U>(): Result<U, E>
      requires Fail?
    {
      Fail(error)
    }

    function Extract(): T
      requires Ok?
    {
      value
    }
  }
}
