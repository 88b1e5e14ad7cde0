/** Option, Result and Outcome: the model's stand-ins for Java's null and for thrown exceptions. */
module Wrappers {

  /** `None` plays the part of a Java null reference. */
  datatype Option<+T> = None | Some(value: T)

  /** The result of an operation that may throw instead of returning. */
  datatype Result<+R, +E> = Success(value: R) | Failure(error: E)

  /** The result of a void operation that may throw. */
  datatype Outcome<+E> = Pass | Fail(error: E)
}
