/** Exception kinds and call outcomes shared by the whole model. */
module Errors {

  /** The Python exception classes that the core raises or that the error handler names. */
  datatype Exception =
    | IndexError
    | ValueError
    | KeyError
    | TypeError
    | OtherError(className: string)

  datatype Option<+T> = None | Some(value: T)

  /** The outcome of a call: the value it returns, or the exception it raises. */
  datatype Result<+T> = Ok(value: T) | Err(error: Exception)
}
