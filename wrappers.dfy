/** Failure-compatible wrappers used for the exceptions the scanner swallows or reports. */
module Wrappers {
  datatype Option<+T> = None | Some(value: T)

  /** A computation that either succeeds or raises; `message` stands for `str(e)`. */
  datatype Result<+T> = Ok(value: T) | Err(message: string)
}
