/** Option, Result and Outcome: Java's null references and thrown exceptions, as values. */
module Wrappers {

  /** A value that may be absent; `None` stands for a Java `null`. */
  datatype Option<+T> = None | Some(value: T)

  /** The value of a Java call that either returns normally or throws. */
  datatype Result<+R, +E> = Success(value: R) | Failure(error: E)

  /** The value of a Java `void` call that either returns normally or throws. */
  datatype Outcome<+E> = Pass | Fail(error: E)
}
