/** Results of operations that can throw, and values that may be missing. */
module Wrappers {
  datatype Result<+T> = Success(value: T) | Exception

  datatype Option<+T> = Some(value: T) | None
}
