/** Results of the pure codec functions, the Go errors the methods return, and how they relate. */
module Outcomes {

  datatype Option<+T> = None | Some(value: T)

  /** Why a decoder refuses its input. */
  datatype Fault =
    | Overflow            // a varint longer than ten bytes
    | OutOfBounds         // the input ends, or a length points outside it
    | UnexpectedEndGroup  // an end-group tag without a start
    | EndGroupTag         // an end-group tag where a field is expected
    | IllegalTag          // a field number that is not positive
    | WrongWireType       // a known field with the wrong wire type
    | IllegalWireType     // wire type 6 or 7

  datatype Result<+T> = Ok(value: T) | Err(fault: Fault) {
    predicate IsFailure() {
      Err?
    }

    function PropagateFailure<U>(): Result<U>
      requires Err?
    {
      Err(fault)
    }

    function Extract(): T
      requires Ok?
    {
      value
    }
  }

  /** The error values of the generated code. */
  datatype GoError =
    | ErrIntOverflow
    | ErrInvalidLength
    | ErrUnexpectedEOF
    | ErrUnexpectedEndOfGroup
    | ErrEndGroupForNonGroup
    | ErrIllegalTag
    | ErrWrongWireType
    | ErrIllegalWireType
    | ErrSubMessage(fault: Fault)

  /** The fault an error reports. A length that does not fit gives ErrInvalidLength or
      ErrUnexpectedEOF depending on where in the buffer it stands; both are OutOfBounds. */
  function Class(e: GoError): Fault {
    match e
    case ErrIntOverflow => Overflow
    case ErrInvalidLength => OutOfBounds
    case ErrUnexpectedEOF => OutOfBounds
    case ErrUnexpectedEndOfGroup => UnexpectedEndGroup
    case ErrEndGroupForNonGroup => EndGroupTag
    case ErrIllegalTag => IllegalTag
    case ErrWrongWireType => WrongWireType
    case ErrIllegalWireType => IllegalWireType
    case ErrSubMessage(f) => f
  }
}
