/** Small failure-carrying datatypes shared by the other modules. */
module Wrappers {

  /** An optional value: `None` when there is nothing to report. */
  datatype Option<+T> = None | Some(value: T)

  /** Either a computed value or the error that stopped the computation. */
  datatype Result<+R, +E> = Success(value: R) | Failure(error: E)
}
