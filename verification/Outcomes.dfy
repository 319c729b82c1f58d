/** Success-or-error values for the Go functions that return `(value, error)`. */
module Outcomes {

  datatype Option<+T> = None | Some(value: T)

  datatype Result<+T> = Success(value: T) | Failure(error: Error)

  datatype Error =
    | FingerOutOfRange
    | Unreachable
    | NotBetween
    | BadKeySize
    | ShortCiphertext
    | PartialBlock
}
