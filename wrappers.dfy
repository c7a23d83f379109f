/** Option and Result: absent values and raised exceptions as plain data. */
module Wrappers {

  datatype Option<+T> = None | Some(value: T)

  /** The outcome of a call into a library that may raise: its value, or the
      text of the exception (`str(e)` in the source). */
  datatype Result<+T> = Success(value: T) | Failure(error: string)
}
