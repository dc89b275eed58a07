/** The outcomes of decoding: the errors the generated code returns, and the
    coarser faults in which the specification functions are written. */
module Errors {
  /** What a decoding step yields: a value, or why the bytes are refused. */
  datatype Result<+T> = Ok(value: T) | Err(fault: Fault) {
    predicate IsFailure() {
      Err?
    }

    function PropagateFailure<U>(): Result<U>
      requires Err?
    {
      Err(fault)
    }

    function Extract(): T
      requires Ok?
    {
      value
    }
  }

  /** Why a byte string is not a message. `Bounds` covers both of Go's bounds errors:
      which of the two the code reports depends on where in the buffer the bytes lie,
      because an index near 2^63 wraps around before it is compared with the length. */
  datatype Fault =
    | Overflow
    | Bounds
    | EndOfGroup
    | BadWireType(wireType: nat)
    | EndGroupTag
    | BadTag(fieldNum: int, wire: nat)
    | WrongType(wireType: nat, fieldNum: int)

  /** Go's `error` values; `Nil` is the absence of an error. */
  datatype Error =
    | Nil
    | ErrIntOverflow
    | ErrInvalidLength
    | ErrUnexpectedEOF
    | ErrUnexpectedEndOfGroup
    | ErrIllegalWireType(wireType: nat)
    | ErrEndGroupForNonGroup
    | ErrIllegalTag(fieldNum: int, wire: nat)
    | ErrWrongWireType(wireType: nat, fieldNum: int)
  {
    /** The fault that this error reports. */
    function Fault(): Fault
      requires !Nil?
    {
      match this
      case ErrIntOverflow => Overflow
      case ErrInvalidLength => Bounds
      case ErrUnexpectedEOF => Bounds
      case ErrUnexpectedEndOfGroup => EndOfGroup
      case ErrIllegalWireType(wt) => BadWireType(wt)
      case ErrEndGroupForNonGroup => EndGroupTag
      case ErrIllegalTag(n, w) => BadTag(n, w)
      case ErrWrongWireType(wt, n) => WrongType(wt, n)
    }

    /** Whether the error agrees with the specified outcome. */
    ghost predicate Reports<T>(r: Result<T>) {
      if r.Ok? then Nil? else !Nil? && Fault() == r.fault
    }
  }
}
