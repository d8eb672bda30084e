/** Option and Result, the shapes in which the model returns PHP's `null` and thrown exceptions. */
module Wrappers {

  datatype Option<T> = None | Some(value: T)

  datatype Result<T, E> = Ok(value: T) | Err(error: E)
}
