/** Optional values and success-or-error outcomes shared by the other modules. */
module Wrappers {

  /** A value that may be absent (Python's `None`, or a call that raises). */
  datatype Option<+T> = None | Some(value: T)

  /** The outcome of a step that either produces a value or stops with an error. */
  datatype Result<+T, +E> = Ok(value: T) | Err(error: E)
}
