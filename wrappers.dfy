/** Option and Result: Rust's `Option<T>` and the panics of the sync flow as values. */
module Wrappers {

  datatype Option<+T> = None | Some(value: T)

  datatype Result<+T, +E> = Success(value: T) | Failure(error: E)
}
