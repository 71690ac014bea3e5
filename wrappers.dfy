/** Failure-compatible wrappers shared by every module of the model. */
module Wrappers {

  datatype Option<+T> = None | Some(value: T)

  /** A decoded value or the message of the error that stopped the decoding. */
  datatype Result<+T> = Success(value: T) | Failure(error: string)
}
