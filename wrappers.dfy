/** Option, Result and Outcome: Java's null / Optional and thrown exceptions become values. */
module Wrappers {

  datatype Option<+T> = None | Some(value: T)

  /** The value a Java method returns, or the exception it throws. */
  datatype Result<+T, +E> = Ok(value: T) | Err(error: E)

  /** The completion of a Java `void` method: normal return, or the exception it throws. */
  datatype Outcome<+E> = Pass | Fail(error: E)
}
