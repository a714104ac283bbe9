/** Option and Result datatypes used throughout the model. */
module Wrappers {

  /** An optional value: a nullable column, an absent relation. */
  datatype Option<+T> = None | Some(value: T)

  /** Either a value or an error. */
  datatype Result<+T, +E> = Ok(value: T) | Err(error: E)
}
