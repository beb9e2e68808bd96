/** Failure-carrying values shared by every module of the model: Python's
    `None`-or-value and the "returned or raised" outcome of a call. */
module Outcomes {

  /** A value that may be absent, as Python's `X | None`. */
  datatype Option<+T> = None | Some(value: T) {

    /** The wrapped value, or `default` when absent. */
    function GetOr(default: T): T {
      match this
      case Some(v) => v
      case None => default
    }
  }

  /** A call that either returns a value or raises an exception. */
  datatype Result<+T> = Ok(value: T) | Raised(reason: string)
}
