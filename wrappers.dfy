/** Failure-carrying values shared by the other modules. */
module Wrappers {

  /** An optional value: `None` stands for JavaScript's `undefined`/`null`/NaN. */
  datatype Option<+T> = None | Some(value: T)

  /** A value or an error. */
  datatype Result<+R, +E> = Success(value: R) | Failure(error: E)
}
