/** Option and Result, the value-level stand-ins for Java's `null` and for exceptions. */
module Wrappers {

  /** `None` stands for a Java `null` reference. */
  datatype Option<+T> = None | Some(value: T)

  /** `Failure` stands for an exception thrown out of an operation. */
  datatype Result<+R, +E> = Success(value: R) | Failure(error: E)
}
