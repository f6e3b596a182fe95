/** Option and Result, for the values the roster code may fail to produce. */
module Wrappers {

  datatype Option<+T> = None | Some(value: T)

  /** A value, or the error the Python code would raise instead of returning it. */
  datatype Result<+T, +E> = Ok(value: T) | Err(error: E)
}
