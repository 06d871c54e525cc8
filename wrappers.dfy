/** Failure-carrying result types shared by every module. */
module Wrappers {

  /** A value that may be absent: JavaScript's `null`/`undefined`, or a failed match. */
  datatype Option<+T> = None | Some(value: T)

  /** An operation that either produces a value or raises an error carrying a message. */
  datatype Result<+T> = Ok(value: T) | Err(message: string)
}
