/** Optional values and results with an error case, used where the C++ code
    returns a possibly-null pointer or throws. */
module Wrappers {

  datatype Option<+T> = None | Some(value: T)

  datatype Result<+T, +E> = Ok(value: T) | Err(error: E)
}
