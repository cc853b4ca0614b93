/** Optional values and results: the model's stand-ins for pandas' missing
    cells and for Python exceptions. */
module Wrappers {

  /** A cell that may be missing; None plays the part of NaN/None. */
  datatype Option<+T> = None | Some(value: T)

  /** The outcome of an operation that can raise. */
  datatype Result<+R, +E> = Success(value: R) | Failure(error: E)
}
