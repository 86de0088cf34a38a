/** Optional values and fallible results, shared by the modules that model an
    operation with an error path or a "not found" answer. */
module Wrappers {
  datatype Option<T> = None | Some(value: T)

  datatype Result<T, E> = Ok(value: T) | Err(error: E)
}
