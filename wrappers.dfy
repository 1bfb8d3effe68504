/** Failure-carrying results shared by the image editor, the compressor and the decoder. */
module Wrappers {

  datatype Option<+T> = None | Some(value: T)

  /** A value, or the error that stopped the computation (a raised exception in the source). */
  datatype Result<+T, +E> = Ok(value: T) | Err(error: E)

  /** Success without a value, or the error that stopped the operation. */
  datatype Outcome<+E> = Pass | Fail(error: E)
}
