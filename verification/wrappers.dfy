/** Optional values and results, the model's stand-ins for Python's `None` and for raised errors. */
module Wrappers {

  /** A nullable value: a SQL NULL, a missing dictionary key, or an omitted keyword argument. */
  datatype Option<+T> = None | Some(value: T)

  /** The outcome of an operation that may raise. */
  datatype Result<+T, +E> = Ok(value: T) | Err(error: E)
}
