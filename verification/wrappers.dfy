/** Failure-carrying values shared by the model. */
module Wrappers {

  /** An optional value: `None` where the program has nothing (a failed call, a parse error). */
  datatype Option<+T> = None | Some(value: T)

  /** A value or the error that replaced it. */
  datatype Result<+R, +E> = Success(value: R) | Failure(error: E)
}
