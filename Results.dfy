/** Success/failure values standing in for the exceptions the contact book raises. */
module Results {

  datatype Option<+T> = None | Some(value: T)

  /** The Python exception classes the core raises, with their messages. */
  datatype Error =
    | ValueError(message: string)
    | KeyError(message: string)
    | OverflowError(message: string)

  /** A call that returns a value or raises. */
  datatype Result<+T> = Ok(value: T) | Err(error: Error)

  /** A call that returns nothing or raises. */
  datatype Outcome = Pass | Fail(error: Error)
}
