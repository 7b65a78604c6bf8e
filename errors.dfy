/** The error kinds of the vault (src/error.rs) and the result shapes the rest
    of the model returns. */
module Errors {

  /** One variant per `Error` variant; the wrapped library errors of
      `Database` and `Io` are reduced to their message. */
  datatype Error =
    | SecretNotFound(name: string)
    | SecretAlreadyExists(name: string)
    | Database(message: string)
    | Encryption(message: string)
    | Decryption(message: string)
    | Keychain(message: string)
    | Io(message: string)
    | InvalidSecretName(message: string)

  /** `crate::error::Result<T>`. */
  datatype Result<+T> = Ok(value: T) | Err(error: Error) {
    predicate IsFailure() { Err? }

    function PropagateFailure<U>(): Result<U>
      requires Err?
    {
      Err(error)
    }

    function Extract(): T
      requires Ok?
    {
      value
    }
  }

  datatype Option<+T> = None | Some(value: T) {
    function GetOr(default: T): T {
      match this
      case Some(v) => v
      case None => default
    }
  }

  /** How a Rust function that can panic ends: a normal return, or a panic
      that aborts the whole process. */
  datatype Outcome<+T> = Returned(value: T) | Panicked
}
