/** Failure-carrying results used by the operations that can reject their input. */
module Wrappers {

  /** A value that may be absent. */
  datatype Option<+T> = None | Some(value: T)

  /** Either the computed value or the reason the operation refused to compute it. */
  datatype Result<+R, +E> = Ok(value: R) | Err(error: E)
}
