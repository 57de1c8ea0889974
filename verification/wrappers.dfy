/** Plain Option and Result datatypes used across the model: an optional
    value and a value-or-error result. */
module Wrappers {

  /** A value that may be absent (Python's `Optional`, `None` when absent). */
  datatype Option<+T> = None | Some(value: T)

  /** The outcome of a call that either returns a value or raises with a message. */
  datatype Result<+T, +E> = Success(value: T) | Failure(error: E)
}
