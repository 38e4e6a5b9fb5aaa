/** Option and Result values standing in for java.util.Optional and thrown exceptions. */
module Wrappers {

  /** An optional value: the model of a nullable reference or an Optional. */
  datatype Option<+T> = None | Some(value: T)

  /** Either a value or the error an operation raised. */
  datatype Result<+T, +E> = Ok(value: T) | Err(error: E)
}
