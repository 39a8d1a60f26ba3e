/** Optional values and error-carrying results used by the driver model. */
module Results {

  /** A value that may be absent, such as the error `add` may or may not return. */
  datatype Option<+T> = None | Some(value: T)

  /** The value of a driver operation or the error it returns to the plugin handler. */
  datatype Result<+T, +E> = Ok(value: T) | Err(error: E)
}
