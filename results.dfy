/** Values and errors shared by the dataset-assembly model. */
module Results {

  datatype Option<+T> = None | Some(value: T)

  /** The Python exceptions the dataset builder can raise. */
  datatype Error =
    /** ValueError raised by the filename-length check, carrying the offending name */
    | NameLengthMismatch(name: string)
    /** ValueError of `a, b = s.split('_')` when `s` holds more than one underscore */
    | TooManyValuesToUnpack
    /** TypeError of `ord(s)` when `s` is not a single character; carries |s| */
    | OrdExpectsCharacter(length: nat)
    /** ValueError of `int(s)` on a string that is not a decimal literal */
    | InvalidLiteral(literal: string)

  datatype Result<+T> = Ok(value: T) | Err(error: Error)

  /** How a state-changing step of the builder ended: normally or with an exception. */
  datatype Outcome = Completed | Raised(error: Error)
}
