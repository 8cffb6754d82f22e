/** Failure-carrying results shared by the modules of the model. */
module Wrappers {

  datatype Option<+T> = None | Some(value: T)

  datatype Result<+T, +E> = Ok(value: T) | Err(error: E)

  /** The outcome of a check that returns nothing on success. */
  datatype Outcome<+E> = Pass | Fail(error: E)
}
