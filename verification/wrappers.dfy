/** Optional values and results with an error, standing in for Python's
    `None` and for exceptions that end an operation. */
module Wrappers {

  datatype Option<+T> = None | Some(value: T)

  datatype Result<+T, +E> = Ok(value: T) | Err(error: E)
}
