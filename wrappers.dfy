/** Optional values and success-or-failure results, used in place of the
    source's "missing value" conventions and raised exceptions. */
module Wrappers {

  datatype Option<+T> = None | Some(value: T)

  datatype Result<+T, +E> = Ok(value: T) | Err(error: E)
}
