/** Failure-carrying wrappers shared by every module of the model:
    `Option` for absent values, `Result` for operations that either produce
    a value or raise, `Outcome` for checks that pass or fail with a reason. */
module Outcomes {

  datatype Option<+T> = None | Some(value: T)

  datatype Result<+T, +E> = Success(value: T) | Failure(error: E) {
    predicate IsFailure() {
      Failure?
    }

    function PropagateFailure<U>(): Result<U, E>
      requires Failure?
    {
      Failure(error)
    }

    function Extract(): T
      requires Success?
    {
      value
    }
  }

  datatype Outcome<+E> = Pass | Fail(reason: E)
}
