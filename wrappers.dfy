/** Option, Result and Outcome: the model's replacement for Java's null returns and thrown exceptions. */
module Wrappers {

  /** `None` stands for a Java `null` return. */
  datatype Option<T> = None | Some(value: T)

  /** The value a Java method returns, or the exception it throws. */
  datatype Result<T, E> = Success(value: T) | Failure(error: E)

  /** Completion of a `void` Java method, or the exception it throws. */
  datatype Outcome<E> = Pass | Fail(error: E)
}
