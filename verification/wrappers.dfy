/** Failure-carrying result types shared by the directory operations. */
module Wrappers {

  /** A value that may be absent; stands for a possibly-NULL pointer or argument. */
  datatype Option<+T> = None | Some(value: T)

  /** The outcome of a directory command: the new value, or the reason it was refused. */
  datatype Result<+R, +E> = Ok(value: R) | Err(error: E)
}
