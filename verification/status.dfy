/**
 The result codes every operation of the driver returns (Definitions.h).
 The source returns them as plain integers; here an operation returns a
 `Result` and `Error.Code` gives back the integer the C code would return.
 */
module Status {

  /** The negative result codes of Definitions.h, one constructor per code. */
  datatype Error =
    | GeneralError      // LT_ERROR: port failure, short write, unrecognised device
    | InvalidArgument   // LT_INVALID_ARGUMENT: rejected before anything is sent
    | Timeout           // LT_TIMEOUT: nothing, or less than a minimal frame, was read
    | BadCrc            // LT_BAD_CRC: the trailing CRC does not match the frame
    | ProtocolError     // LT_PROTOCOL_ERROR: valid frame, wrong address or function
  {
    /** The integer value of the code in Definitions.h. */
    function Code(): (c: int)
      ensures -5 <= c <= -1
    {
      match this
      case GeneralError => -1
      case InvalidArgument => -2
      case Timeout => -3
      case BadCrc => -4
      case ProtocolError => -5
    }
  }

  /** LT_SUCCESS. */
  const SuccessCode := 0

  /** Distinct errors have distinct codes, and no error code reads as success. */
  lemma CodesAreDistinct(a: Error, b: Error)
    ensures a.Code() == b.Code() <==> a == b
    ensures a.Code() < SuccessCode
  {
  }

  /** Either the value an operation produced or the error it reported. */
  datatype Result<+T> = Ok(value: T) | Err(error: Error) {

    predicate IsFailure() {
      Err?
    }

    function PropagateFailure<U>(): Result<U>
      requires Err?
    {
      Err(error)
    }

    function Extract(): T
      requires Ok?
    {
      value
    }

    /** The integer the C function returns: LT_SUCCESS or the error's code. */
    function Code(): (c: int)
      ensures c == SuccessCode <==> Ok?
    {
      match this
      case Ok(_) => SuccessCode
      case Err(e) => e.Code()
    }
  }

  datatype Option<+T> = None | Some(value: T)
}
