/** Option and Result, the two failure-carrying values the model uses in place of
    Go's nil pointers and (value, error) pairs. */
module Wrappers {

  /** A value that may be absent: a nil pointer or a zero `time.Time`. */
  datatype Option<+T> = None | Some(value: T)

  /** The outcome of an operation that returns `(value, error)` in Go. */
  datatype Result<+T, +E> = Ok(value: T) | Err(error: E)
}
