/** Optional values and error-carrying results, used in place of Go's nil
    returns and (value, error) pairs. */
module Base {

  datatype Option<+T> = None | Some(value: T)

  datatype Result<+T, +E> = Ok(value: T) | Err(error: E)
}
