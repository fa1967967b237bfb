/** Failure-carrying wrappers shared by the router, the store and the handlers. */
module Results {

  /** A value that may be absent: a lookup miss or a path that does not decode. */
  datatype Option<+T> = None | Some(value: T)

  /** The value of a store operation, or the error it reports. */
  datatype Result<+T, +E> = Success(value: T) | Failure(error: E)
}
