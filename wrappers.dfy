/** The optional-value and result datatypes shared by the pipeline modules. */
module Wrappers {

  /** A value that may be missing: pandas' NaN / Python's None. */
  datatype Option<+T> = None | Some(value: T)

  /** The outcome of a step that can raise. */
  datatype Result<+R, +E> = Success(value: R) | Failure(error: E)
}
