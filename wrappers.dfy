/** The optional value and the success-or-error outcome used by the rest of the model. */
module Wrappers {

  /** An optional value: Python's `None` or a present value. */
  datatype Option<+T> = None | Some(value: T)

  /** The outcome of a call into code that may raise: a value or an error message. */
  datatype Result<+R, +E> = Success(value: R) | Failure(error: E)
}
