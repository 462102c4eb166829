/** Failure-compatible types that stand for the exceptions the source throws. */
module Wrappers {

  datatype Option<+T> = None | Some(value: T)

  /** The exceptions of the modelled code, one constructor per throw site. */
  datatype Error =
    | PushAfterTerminator
    | NotMapped
    | NotAddressable
    | HostRefused
    | NothingToMap
    | FileTruncated
    | StackTooSmall
    | StackOverlapsImage
    | NoTerminator

  datatype Result<+T> = Success(value: T) | Failure(error: Error) {
    predicate IsFailure() { Failure? }

    /** Total, so that propagating out of a call that cannot fail needs no proof. */
    function PropagateFailure<U>(): Result<U> {
      match this
      case Failure(e) => Failure(e)
      case Success(_) => Failure(NoTerminator)
    }

    function Extract(): T
      requires Success?
    {
      value
    }
  }

  /** What a call without a value returns: it either passes or throws. */
  datatype Outcome = Pass | Fail(error: Error) {
    predicate IsFailure() { Fail? }

    function ToResult(): Result<()> {
      match this
      case Pass => Success(())
      case Fail(e) => Failure(e)
    }

    function PropagateFailure<U>(): Result<U> {
      match this
      case Fail(e) => Failure(e)
      case Pass => Failure(NoTerminator)
    }
  }
}
