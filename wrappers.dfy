/** Option and error-carrying results used across the model. */
module Wrappers {

  datatype Option<+T> = None | Some(value: T)

  /** The outcome of an operation that may raise an error with a message. */
  datatype Outcome = Pass | Fail(message: string)
}
