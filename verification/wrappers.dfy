/** Option and Result, the two failure-carrying shapes used across the model. */
module Wrappers {

  /** A value that may be absent: a SQL NULL, an unset query parameter, a missing
      localStorage entry. */
  datatype Option<+T> = None | Some(value: T)

  /** The outcome of a request handler: the response body, or the error it raises. */
  datatype Result<+R, +E> = Ok(value: R) | Err(error: E)
}
