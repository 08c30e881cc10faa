/** Failure-carrying results shared by every module. */
module Wrappers {

  datatype Option<+T> = None | Some(value: T)

  /** A thrown error of the modelled program is an `Err`. */
  datatype Result<+T, +E> = Ok(value: T) | Err(error: E)
}
