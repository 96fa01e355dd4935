/** The outcome taxonomy of one command exchange.

    The television library raises one exception class per abnormal
    termination; here every raised condition is a constructor of `Failure`
    and a call either returns a value or carries one of them. */
module Errors {

  /** Every way a call of the codec or the exchange can end without a value. */
  datatype Failure =
    | LimitOverError     // reply code 01: value above the accepted maximum
    | LimitUnderError    // reply code 02: value below the accepted minimum
    | CommandCancelled   // reply code 03: invalid data or length
    | ParseError         // reply code 04: the television could not parse the command
    | EncodeError        // the joined frame text is not valid hexadecimal
    | ResponseError      // no reply, or a reply too short to hold a code
    | MalformedHex       // a field is not hexadecimal text (the plain ValueError of int(x, 16))
    | MissingField       // the command lacks its category or length (an IndexError)
    | MixedFields        // numbers and text mixed in one checksum call (a TypeError)

  /** A value of type T, or the condition that prevented it. */
  datatype Result<T> = Ok(value: T) | Err(error: Failure)

  datatype Option<T> = None | Some(value: T)

  /** What one exchange ends with: the reply code it returns, or what it raises. */
  datatype Outcome = Returned(code: string) | Raised(error: Failure)
}
