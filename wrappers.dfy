/** Option and Result values used for the error paths of the grading core. */
module Wrappers {

  /** A value that may be missing: a parsed mark, a dictionary lookup. */
  datatype Option<T> = None | Some(value: T)

  /** A computation that either succeeds or raises an error carrying `error`. */
  datatype Result<T, E> = Ok(value: T) | Err(error: E)
}
