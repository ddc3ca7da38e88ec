/** Failure-carrying results used across the model: JavaScript's `undefined`, thrown errors. */
module Wrappers {

  datatype Option<+T> = None | Some(value: T)

  datatype Result<+T, +E> = Success(value: T) | Failure(error: E)

  /** The completion of a call that returns nothing: it either returns or throws `error`. */
  datatype Outcome<+E> = Pass | Fail(error: E)
}
