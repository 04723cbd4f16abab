/** Optional values and success-or-error results, used where the source
    returns `None`, omits a dictionary key, or raises. */
module Wrappers {

  datatype Option<+T> = None | Some(value: T)

  datatype Result<+R, +E> = Ok(value: R) | Err(error: E)
}
