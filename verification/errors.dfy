/**
  Failure kinds of the store and the Result/Option wrappers used by every
  other module.

  The kinds are the exception classes the application declares, plus the
  Python built-in exceptions that the modelled code lets escape or catches.
 */
module Errors {

  datatype Error =
    // Application exceptions
    | InvalidCredentials
    | AccountLocked
    | InvalidAccountFormat
    | AccountExists
    | AccountNotFound
    | InvalidUsername
    | TooManyAttempts
    | SessionOngoing
    | NoSession
    // Python built-ins raised by the modelled code
    | ValueError          // int('', 16), bytes.fromhex, the cipher's length checks
    | TypeError           // ord(b'') when unpadding an empty plaintext
    | UnicodeDecodeError  // bytes.decode('utf-8') on malformed input
    | AttributeError      // an attribute read on a half-constructed object

  datatype Option<+T> = None | Some(value: T) {
    predicate IsFailure() {
      None?
    }

    function PropagateFailure<U>(): Option<U>
      requires None?
    {
      None
    }

    function Extract(): T
      requires Some?
    {
      value
    }
  }

  datatype Result<+T> = Ok(value: T) | Err(error: Error) {
    predicate IsFailure() {
      Err?
    }

    function PropagateFailure<U>(): Result<U>
      requires Err?
    {
      Err(error)
    }

    function Extract(): T
      requires Ok?
    {
      value
    }

    /** Re-raises one error kind as another, as an `except A: raise B` does. */
    function Translate(from: Error, to: Error): (r: Result<T>)
      ensures Ok? ==> r == this
      ensures Err? && error == from ==> r == Err(to)
      ensures Err? && error != from ==> r == this
    {
      if Err? && error == from then Err(to) else this
    }
  }
}
