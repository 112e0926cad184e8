/** Result types shared by every component. */
module Wrappers {

  /** A value that may be absent: a row that a query did not find, a column that is null. */
  datatype Option<+T> = None | Some(value: T)

  /** The result of a call that may throw: the value it resolves with, or the error it rejects with. */
  datatype Outcome<+T, +E> = Ok(value: T) | Err(error: E)
}
