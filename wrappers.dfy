/** Helper datatypes shared by the other modules. */
module Wrappers {

  /** A value that may be absent (a file that does not exist, a regex that does not match). */
  datatype Option<+T> = None | Some(value: T)

  /** The outcome of a call that may fail with a message (a rejected promise). */
  datatype Result<+T> = Success(value: T) | Failure(message: string)
}
