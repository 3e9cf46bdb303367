/** Optional values and results with an error, used for absent mapping entries
    and for the failures of parsing. */
module Wrappers {

  datatype Option<+T> = None | Some(value: T)

  datatype Result<+T, +E> = Ok(value: T) | Err(error: E)
}
