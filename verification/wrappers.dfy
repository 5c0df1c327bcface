/** Optional values and results with an error, used wherever the source
    returns None, leaves a key out of a dict, or raises. */
module Wrappers {

  datatype Option<+T> = None | Some(value: T)

  datatype Result<+T, +E> = Ok(value: T) | Err(error: E)
}
