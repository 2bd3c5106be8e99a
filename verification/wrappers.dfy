/**
  Failure-compatible result type shared by every decoding stage. A decode
  either produces a whole value or names the one error kind that stopped it;
  no partially populated value is ever returned.
 */
module Wrappers {

  /** The ways a decode can fail. */
  datatype DecodeError =
    | BufferTooShort   // a fixed-width read would run past the end of the buffer
    | InvalidDivision  // a password slot is nonzero while its key slot is zero
    | CyclicList       // the record list walk came back to an index it already visited

  datatype Result<+T> = Success(value: T) | Failure(error: DecodeError) {

    predicate IsFailure() {
      Failure?
    }

    function PropagateFailure<U>(): Result<U>
      requires Failure?
    {
      Failure(error)
    }

    function Extract(): T
      requires Success?
    {
      value
    }
  }
}
