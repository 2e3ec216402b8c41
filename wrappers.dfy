/** Option and Result, standing for Java's nullable references and thrown exceptions. */
module Wrappers {

  /** `None` is Java's `null`. */
  datatype Option<+T> = None | Some(value: T)

  /** `Failure(e)` is a call that throws `e` instead of returning normally. */
  datatype Result<+R, +E> = Success(value: R) | Failure(error: E)
}
