/** Optional values and error-carrying results, used for the engine's `null`
    fields and for the operations that throw. */
module Wrappers {

  datatype Option<+T> = None | Some(value: T)

  datatype Result<+T, +E> = Ok(value: T) | Err(error: E)
}
