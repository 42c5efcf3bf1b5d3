/** Failure-compatible result types shared by every module of the model. */
module Wrappers {

  datatype Option<+T> = None | Some(value: T) {
    function GetOr(default: T): T {
      match this
      case Some(v) => v
      case None => default
    }
  }

  /** The recoverable errors the reader throws. */
  datatype Error =
    | SignatureBlob        // InvalidFormatError.signatureBlob
    | MissingSpecialType   // Mscorlib.MissingSpecialType

  /** The outcome of an operation that may throw or trap.
      `Fatal` stands for a Swift trap (fatalError, a force-unwrap of nil,
      `try!` on a thrown error, slicing past the end of a buffer or an
      unsigned underflow): it ends the process and is never caught. */
  datatype Outcome<+T> = Success(value: T) | Thrown(error: Error) | Fatal {

    predicate IsFailure() {
      !Success?
    }

    function PropagateFailure<U>(): Outcome<U>
      requires IsFailure()
    {
      if Thrown? then Thrown(error) else Fatal
    }

    function Extract(): T
      requires Success?
    {
      value
    }
  }
}
