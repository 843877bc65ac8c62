/** Failure-compatible wrappers shared by the simulator modules. */
module Common {

  /** A value that may be absent. */
  datatype Option<+T> = None | Some(value: T)

  /** Either a value or the error that the input was rejected with. */
  datatype Result<+T, +E> = Success(value: T) | Failure(error: E)
}
