/** The failure-compatible result type used wherever the source throws. */
module Results {

  datatype Error =
    | DivisionByZero
    | NegativeExponent
    | IllegalRange
    | InverseDoesNotExist
    | MessageTooLong
    | ExceedsModulus
    | DecryptionError
    | InvalidHashLength
    | IntendedLengthTooShort
    | TagMismatch
    | InvalidCiphertext
    | IntegrityFailed
    | MalformedPacket
    | UnexpectedEnd
    | PartialLengthsNotSupported
    | UnexpectedPacket
    | MultipleKeys
    | MissingKeyID
    | MisalignedView
    | UndefinedKeyID
    | OutOfBounds

  datatype Result<+T> = Ok(value: T) | Err(error: Error) {
    predicate IsFailure() { Err? }

    function PropagateFailure<U>(): Result<U>
      requires Err?
    {
      Err(error)
    }

    function Extract(): T
      requires Ok?
    {
      value
    }
  }

  datatype Option<+T> = None | Some(value: T)
}
