/** Values standing for a Java call that either returns or throws. */
module Wrappers {

  datatype Option<+T> = None | Some(value: T)

  /** A call that returns a value of type T or throws an E. */
  datatype Result<+T, +E> = Ok(value: T) | Err(error: E)

  /** A `void` call that returns normally or throws an E. */
  datatype Outcome<+E> = Pass | Fail(error: E)
}
