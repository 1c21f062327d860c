/** Option and Result values standing for Java's null returns and thrown exceptions. */
module Wrappers {

  /** `None` stands for a Java `null` result. */
  datatype Option<+T> = None | Some(value: T)

  /** `Failure` stands for an exception thrown by the modelled method. */
  datatype Result<+T, +E> = Success(value: T) | Failure(error: E)
}
