/**
 * Python's control flow of return-or-raise, and the exceptions the library raises or catches.
 */
module Errors {

  datatype Option<+T> = None | Some(value: T)

  /** The exceptions that reach or leave the library. */
  datatype Error =
    | ValueError(message: string)
    | TypeError(message: string)
      /** Any exception raised while talking to the store (network failure, timeout). */
    | ConnectionError

  /** The outcome of a Python call: it returns a value or raises an exception. */
  datatype Outcome<+T> = Returned(value: T) | Raised(error: Error)
}
