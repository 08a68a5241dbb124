/** Success/failure wrappers shared by the models of both services. */
module Outcomes {

  /** A value that may be missing, like a query's `.first()` that found no row. */
  datatype Option<+T> = None | Some(value: T)

  /** The result of an operation that either produces a value or fails with a typed error. */
  datatype Result<+T, +E> = Ok(value: T) | Err(error: E)

  /** The reply of an operation that produces no value. */
  datatype Outcome<+E> = Pass | Fail(error: E)
}
