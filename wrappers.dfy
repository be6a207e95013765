/** Option and result types shared by the model. */
module Wrappers {

  /** An optional value, as returned by a `find` over a list. */
  datatype Option<+T> = None | Some(value: T)

  /** The outcome of an operation that can fail with an error of type E. */
  datatype Result<+T, +E> = Ok(value: T) | Err(error: E)
}
