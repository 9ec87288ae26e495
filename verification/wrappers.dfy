/** The `Option` and `Result` datatypes shared by the model's modules. */
module Wrappers {

  /** A value that may be missing: a failed fetch, a separator that does not occur. */
  datatype Option<+T> = None | Some(value: T)

  /** Either a value or the error that Python would raise in its place. */
  datatype Result<+R, +E> = Success(value: R) | Failure(error: E)
}
