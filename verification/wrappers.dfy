/** Optional values and results with an error, shared by the other modules. */
module Wrappers {

  /** A value that may be missing: a NaN cell, an unparsable (NaT) month label. */
  datatype Option<+T> = None | Some(value: T)

  /** The outcome of a step that can raise. */
  datatype Result<+R, +E> = Success(value: R) | Failure(error: E)
}
