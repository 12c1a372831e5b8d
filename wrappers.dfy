/**
 * Optional values and outcomes: `None` stands for Python's `None` or for "no
 * failure"; a `Failure` carries the text of the exception that was raised.
 */
module Wrappers {

  datatype Option<+T> = None | Some(value: T)

  datatype Result<+T, +E> = Success(value: T) | Failure(error: E)

}
