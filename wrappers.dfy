/** Optional values (Ruby's nil) and results that may carry a raised error. */
module Wrappers {

  /** A value that may be absent, as a Ruby method that may answer nil. */
  datatype Option<+T> = None | Some(value: T)

  /** The outcome of a helper that may raise instead of returning. */
  datatype Result<+R, +E> = Ok(value: R) | Err(error: E)
}
