/** Small failure-compatible wrappers shared by the protocol modules. */
module Wrappers {

  /** A present or absent value; stands for Java's Optional and for a nullable reference. */
  datatype Option<+T> = None | Some(value: T)

  /** An outcome that is either a value or the error that replaced it (an exception in the source). */
  datatype Result<+T, +E> = Success(value: T) | Failure(error: E)
}
