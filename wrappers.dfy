/** Optional values and the outcome of a call that may raise. */
module Wrappers {

  /** Python's `None` or a value. */
  datatype Option<+T> = None | Some(value: T) {
    /** The value, or `default` when there is none. */
    function GetOr(default: T): T {
      match this
      case Some(v) => v
      case None => default
    }
  }

  /** The exceptions the data-access layer lets escape. */
  datatype Failure =
    | UniqueViolation   // a UNIQUE column would hold the same value twice; the write is rolled back
    | NoneAttribute     // an attribute was read through a relationship whose row is missing

  /** A call either returns a value or raises. */
  datatype Result<+T> = Ok(value: T) | Raised(failure: Failure)
}
