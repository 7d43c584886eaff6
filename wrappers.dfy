/** Failure-compatible wrappers for the optional dictionary keys and the
    exceptions of the chunking pipeline. */
module Wrappers {

  /** A dictionary key that may be absent. */
  datatype Option<+T> = None | Some(value: T)

  /** A value, or the error that stopped the computation. */
  datatype Result<+R, +E> = Success(value: R) | Failure(error: E)
}
