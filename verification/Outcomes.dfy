/** Results shared by the whole model. */
module Outcomes {

  /** Result of code that may throw: every failing check in the source raises an exception
      that leaves the worker loop, so a failure ends the run and carries no state. */
  datatype Outcome<+T> = Ok(value: T) | Failure {

    predicate IsFailure() {
      Failure?
    }

    function PropagateFailure<U>(): Outcome<U>
      requires Failure?
    {
      Failure
    }

    function Extract(): T
      requires Ok?
    {
      value
    }
  }

  datatype Option<+T> = None | Some(value: T)
}
