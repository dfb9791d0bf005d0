/** Optional values, error returns, and panics. */
module Wrappers {

  datatype Option<+T> = None | Some(value: T)

  datatype Result<+T, +E> = Success(value: T) | Failure(error: E)

  /** `Panic` stands for a run-time panic, such as an index out of range. */
  datatype Outcome<+T> = Ok(value: T) | Panic
}
