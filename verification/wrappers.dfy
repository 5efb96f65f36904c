/** Failure-carrying results shared by every part of the model. */
module Wrappers {

  /** The conventional Some/None datatype, used where Python returns `None`. */
  datatype Option<+T> = None | Some(value: T)

  /** Either a value or the error that stopped the computation. An `Err`
      stands for a raised exception or for `sys.exit` with a non-zero status. */
  datatype Result<+T, +E> = Ok(value: T) | Err(error: E)
}
