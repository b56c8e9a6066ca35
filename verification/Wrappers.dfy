/** Failure-carrying values shared by the other modules. */
module Wrappers {
  /** A Go value that may be nil or absent. */
  datatype Option<+T> = None | Some(value: T)

  /** A Go result pair `(value, error)`; the value is only used when the error is nil. */
  datatype Reply<+T> = Ok(value: T) | Err(error: string)
}
