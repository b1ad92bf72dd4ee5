/** Failure-carrying results shared by the whole model. */
module Wrappers {

  datatype Option<+T> = None | Some(value: T)

  /** A kdb+ foreign function either returns a K object, or calls `krr` with an
      error message and returns the null K pointer: `Err(msg)` is that pair. */
  datatype Result<+T> = Ok(value: T) | Err(msg: string)
}
