/** Optional values and value-or-error results, shared by the rest of the
    model: `Option` stands for the source's `T | null`, `Result` for a value
    or a thrown gateway error. */
module Wrappers {

  /** A value that may be absent; `None` stands for JavaScript `null`. */
  datatype Option<+T> = None | Some(value: T) {

    /** The carried value, or `default` when there is none. */
    function GetOr(default: T): T {
      match this
      case Some(v) => v
      case None => default
    }
  }

  /** Either a value or the error a call raised. */
  datatype Result<+R, +E> = Ok(value: R) | Err(error: E)
}
