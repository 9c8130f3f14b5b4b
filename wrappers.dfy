/** Option and Result: the model's stand-ins for `null` and for exceptions. */
module Wrappers {

  /** `None` plays the part of JavaScript's `null`. */
  datatype Option<+T> = None | Some(value: T)

  /** The outcome of a library call that may throw: `Failure` stands for the exception. */
  datatype Result<+T, +E> = Success(value: T) | Failure(error: E)
}
