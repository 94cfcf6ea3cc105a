/** Option and Result, the two failure-carrying shapes the model uses. */
module Wrappers {

  /** An absent or present value: a query that found no row, or the row it found. */
  datatype Option<+T> = None | Some(value: T)

  /** The value of a statement that succeeded, or the error the database raised. */
  datatype Result<+T, +E> = Ok(value: T) | Err(error: E)
}
