/** Failure-carrying results used by the bitmap index operations. */
module Outcomes {

  /** A value that may be absent, as returned by a lookup. */
  datatype Option<+T> = None | Some(value: T)

  /** Either a computed value or the error that stopped the computation. */
  datatype Result<+R, +E> = Success(value: R) | Failure(error: E)
}
