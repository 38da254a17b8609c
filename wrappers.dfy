/** Failure-compatible wrappers shared by every module of the model. */
module Wrappers {

  /** `None` is the exact-arithmetic sentinel for an undefined coefficient. */
  datatype Option<+T> = None | Some(value: T)

  /** The outcome of a call that may raise. */
  datatype Result<+T, +E> = Success(value: T) | Failure(error: E)

  /** The Python exceptions that the modelled functions can raise. */
  datatype Exception = AssertionError | IndexError | KeyError
}
