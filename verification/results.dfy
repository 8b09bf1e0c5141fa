/** Failure-compatible wrappers shared by the whole model.
    The source signals failure with .NET exceptions and `null`; here
    `null` is `None` and each exception kind the core can raise is a `Fault`. */
module Results {

  /** The exceptions the card stack can raise, by the .NET type it uses. */
  datatype Fault =
    | IoFailure        // IOException: the serial link dropped or ran dry
    | NegativePayload  // OverflowException from `new byte[n]` with n < 0 (length field below 5)
    | BadFormat        // FormatException from Convert.ToInt32 / Convert.ToByte
    | Overflow         // OverflowException from Convert.ToInt32 (outside Int32)
    | OutOfRange       // ArgumentOutOfRangeException from String.Substring
    | NotConnected     // Exception("Not Connected") when no multiplexer is present

  /** A reference that may be `null`. */
  datatype Option<+T> = None | Some(value: T)

  /** A value or the exception that replaced it. */
  datatype Result<+T> = Ok(value: T) | Err(fault: Fault) {
    predicate IsFailure() {
      Err?
    }

    function PropagateFailure<U>(): Result<U>
      requires Err?
    {
      Err(fault)
    }

    function Extract(): T
      requires Ok?
    {
      value
    }
  }
}
