/** The two ways the model reports a missing value or a failure.

    Python signals "no value" with `None` and failure by raising; the model
    returns an `Option` for the former and a `Result` for the latter. */
module Wrappers {

  /** A value that may be absent (Python's `None`). */
  datatype Option<+T> = None | Some(value: T)

  /** A value, or the error a Python `raise` would have carried. */
  datatype Result<+R, +E> = Success(value: R) | Failure(error: E)
}
