/** Option, Result and the crate's error type, shared by every module. */
module Common {

  datatype Option<+T> = None | Some(value: T)

  /** The crate's error: a failed Win32 call (carrying its status code) or a
      counterpart that no longer exists. */
  datatype Error = Api(code: int) | Closed

  datatype Result<+T> = Ok(value: T) | Err(error: Error)
}
