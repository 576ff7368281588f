/** `Option` and `Result`, the optional value and the success-or-error value shared by the list model and its adapter. */
module Wrappers {

  /** `None` or `Some(value)`: stands for a nullable C# reference or value. */
  datatype Option<+T> = None | Some(value: T)

  /** The outcome of a call that either returns a value or fails with `error`. */
  datatype Result<+R, +E> = Success(value: R) | Failure(error: E)
}
