/** Option and Result values standing in for Python's `None` and for raised exceptions. */
module Wrappers {

  datatype Option<+T> = None | Some(value: T)

  /** The exceptions the modelled code raises. */
  datatype Error = KeyError(key: string) | ValueError(message: string)

  datatype Result<+T> = Ok(value: T) | Err(error: Error)

  /** Result of an operation that returns nothing when it succeeds. */
  datatype Outcome = Pass | Fail(error: Error)
}
