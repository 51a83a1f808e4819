/** Optional values and results with an error value, used by every other module
    where the source returns null/None or raises an HTTP error. */
module Wrappers {

  datatype Option<+T> = None | Some(value: T)

  datatype Result<+T, +E> = Ok(value: T) | Err(error: E)
}
