/** Option and Result, the two wrappers the model uses for Python's `None`/NaN
    and for an operation that raises. */
module Wrappers {

  /** A value that may be missing: `None` stands for Python's `None` and for a
      pandas NaN cell. */
  datatype Option<+T> = None | Some(value: T)

  /** The outcome of an operation that either returns a value or raises. */
  datatype Result<+T, +E> = Ok(value: T) | Err(error: E)
}
