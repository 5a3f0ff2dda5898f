/**
 Optional inputs, decoding failures and the NULL marker returned by encoders.
 */
module Results {
  import opened Wire

  /** A raw column value: `None` is SQL NULL, which this codec refuses. */
  datatype Option<+T> = None | Some(value: T)

  /** Why decoding failed. */
  datatype DecodeError =
    | MissingValue        // the value was NULL (the `not_none!` guard)
    | Truncated           // a read ran past the end of the buffer
    | InvalidSign(sign: u16)  // the sign word was none of the known ones

  /** The outcome of a decoding step, usable with `:-`. */
  datatype Result<+T> = Success(value: T) | Failure(error: DecodeError) {

    predicate IsFailure() {
      Failure?
    }

    function PropagateFailure<U>(): Result<U>
      requires Failure?
    {
      Failure(error)
    }

    function Extract(): T
      requires Success?
    {
      value
    }
  }

  /** Whether an encoder wrote SQL NULL instead of a value. */
  datatype IsNull = Yes | No
}
