/** The outcome of an operation that the source ends either with a value or by raising ValueError. */
module Wrappers {
  datatype Result<+T> = Ok(value: T) | ValueError

  datatype Option<+T> = Some(value: T) | None
}
