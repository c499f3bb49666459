/** Failure-carrying values used in place of Python's `None` results and raised exceptions. */
module Wrappers {

  /** A value that may be missing: Python's `int | None`, or an element a page may lack. */
  datatype Option<T> = None | Some(value: T)

  /** The outcome of a step that either produces a value or stops with an error. */
  datatype Result<T, E> = Ok(value: T) | Err(error: E)
}
