/** Outcome of an operation that the system reports by raising an exception. */
module Wrappers {

  datatype Result<+T, +E> = Ok(value: T) | Err(error: E)

}
