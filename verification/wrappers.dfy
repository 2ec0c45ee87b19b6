/** Failure-carrying wrappers used for the fallible reads of the record layer. */
module Wrappers {

  /** An optional value: `Reader::take` and the integer reads answer `None` when input runs out. */
  datatype Option<+T> = None | Some(value: T)

  /** The outcome of a decode step: a value, or the error kind the caller sees. */
  datatype Result<+R, +E> = Success(value: R) | Failure(error: E)
}
