/** Failure-carrying results shared by every module of the model. */
module Wrappers {

  /** A value that may be missing: Python's `None`, or a lookup that found nothing. */
  datatype Option<+T> = None | Some(value: T)

  /** The outcome of an operation that either returns a value or raises. */
  datatype Result<+T, +E> = Ok(value: T) | Err(error: E)
}
