/** Option and Result values standing in for Go's `(value, error)` pairs and for
    JavaScript's `null`. */
module Wrappers {

  datatype Option<+T> = None | Some(value: T)

  datatype Result<+T, +E> = Ok(value: T) | Err(error: E)
}
