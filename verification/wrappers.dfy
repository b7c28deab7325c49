/** Failure-compatible helper datatypes shared by every module of the model. */
module Wrappers {

  /** A value that may be absent: a JSON `null`, a missing form field, a `None` column. */
  datatype Option<+T> = None | Some(value: T) {

    /** The wrapped value, or `default` when absent. */
    function GetOr(default: T): T {
      match this
      case Some(v) => v
      case None => default
    }
  }

  /** The result of a validation step: either it passes, or it fails with an error. */
  datatype Outcome<+E> = Pass | Fail(error: E)

  /** A computation that yields a value or an error. */
  datatype Result<+R, +E> = Ok(value: R) | Err(error: E)
}
