/** Failure-carrying values used where the dashboard code either produces a
    value or raises: an optional value and a success-or-error result. */
module Outcomes {

  /** A value that may be absent. */
  datatype Option<+T> = None | Some(value: T)

  /** Either a computed value or the error pandas or the dashboard would raise. */
  datatype Result<+T, +E> = Ok(value: T) | Err(error: E)
}
