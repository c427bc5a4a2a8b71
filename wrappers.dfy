/** Failure-carrying results shared by the modules of the schedule model. */
module Wrappers {

  datatype Option<+T> = None | Some(value: T)

  /** A value, or the error that stopped the computation (a Python exception). */
  datatype Result<+T, +E> = Success(value: T) | Failure(error: E)

  /** Like Result, for steps that only change state. */
  datatype Outcome<+E> = Pass | Fail(error: E)

  function Min(a: int, b: int): int
  {
    if a <= b then a else b
  }
}
