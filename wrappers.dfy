/** The optional and error-carrying wrappers shared by the whole model. */
module Wrappers {

  /** A value that may be absent; a missing table cell (NaN) is `None`. */
  datatype Option<+T> = None | Some(value: T)

  /** The outcome of an operation that can raise: `Err` carries the exception. */
  datatype Result<+T, +E> = Ok(value: T) | Err(error: E)
}
