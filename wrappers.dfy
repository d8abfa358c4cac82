/** Optional and fallible values shared by every module of the model. */
module Wrappers {

  /** A value that may be absent: pandas' None / NaN in a cell or a result. */
  datatype Option<+T> = None | Some(value: T)

  /** The outcome of a step that can raise: a value, or the error it raised. */
  datatype Result<+T, +E> = Ok(value: T) | Err(error: E)
}
