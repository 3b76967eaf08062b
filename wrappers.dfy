/** Failure-carrying results used in place of the exceptions the sheet engine raises. */
module Wrappers {

  datatype Option<+T> = None | Some(value: T)

  /** A computed value, or the error the source would raise instead. */
  datatype Result<+R, +E> = Ok(value: R) | Err(error: E)

  /** The outcome of an operation that returns nothing but may raise. */
  datatype Outcome<+E> = Pass | Fail(error: E)
}
