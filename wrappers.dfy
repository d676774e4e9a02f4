/** Optional values and results with an error, shared by the cache and the chunker. */
module Wrappers {

  /** A value that may be missing: `None` stands for Python's `None` return. */
  datatype Option<+T> = None | Some(value: T)

  /** A value or the exception that a Python call raises instead. */
  datatype Result<+R, +E> = Success(value: R) | Failure(error: E)
}
