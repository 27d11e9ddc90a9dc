/** Option and Result, the shapes in which the model reports JavaScript's
    `undefined` values and rejected promises. */
module Wrappers {

  datatype Option<+T> = None | Some(value: T)

  datatype Result<+T, +E> = Ok(value: T) | Err(error: E)
}
