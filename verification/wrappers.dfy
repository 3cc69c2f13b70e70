/** Optional values and success-or-error results, used wherever the controllers
    read a field that may be absent or answer with an error status. */
module Wrappers {

  /** A value that may be missing (`undefined` in the controllers). */
  datatype Option<+T> = None | Some(value: T)

  /** The outcome of a request handler: a value, or the error it answers with. */
  datatype Result<+T, +E> = Ok(value: T) | Err(error: E)
}
