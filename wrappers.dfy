/** Option and Result values for the model's lookups and error paths. */
module Wrappers {

  /** A value that may be absent: SQL NULL, a missing row, `undefined`. */
  datatype Option<+T> = None | Some(value: T) {
    function GetOr(default: T): T {
      match this
      case Some(v) => v
      case None => default
    }
  }

  /** A computation that either yields a value or fails (a thrown error). */
  datatype Result<+R, +E> = Success(value: R) | Failure(error: E)
}
