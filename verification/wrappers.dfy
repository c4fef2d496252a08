/** Failure-compatible result and optional values shared by every module. */
module Wrappers {

  datatype Option<T> = None | Some(value: T)

  /** `Ok` carries the built value, `Err` the single fatal error that aborted the build. */
  datatype Result<T, E> = Ok(value: T) | Err(error: E)
}
