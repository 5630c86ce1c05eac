/** Optional values, used wherever the Python code has a value or None. */
module Wrappers {
  datatype Option<+T> = None | Some(value: T)

  datatype Result<+T, +E> = Ok(result: T) | Err(error: E)
}
