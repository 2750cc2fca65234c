/** The optional-value and success-or-error carriers used throughout the model
    in place of `null` returns and thrown exceptions. */
module Outcomes {

  /** A value that may be absent (the stores' `T | null` results). */
  datatype Option<+T> = None | Some(value: T)

  /** Either a successful value or the error an operation would have thrown. */
  datatype Result<+T, +E> = Ok(value: T) | Err(error: E)
}
