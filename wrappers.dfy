/** Optional values and fallible results, shared by every module of the model. */
module Wrappers {

  /** Rust's Option, and JavaScript's optional record fields. */
  datatype Option<+T> = None | Some(value: T)

  /** Rust's Result: the value of a call that may fail. */
  datatype Result<+T, +E> = Success(value: T) | Failure(error: E)
}
