/** Optional and fallible values. `Option` stands for a Python value that
    may be `None` and for a project-file key that may be missing; `Result`
    carries either the planned commands or the reason a run stops early. */
module Wrappers {

  datatype Option<+T> = None | Some(value: T) {

    /** The value when present, otherwise `fallback`. */
    function GetOr(fallback: T): T {
      match this
      case Some(v) => v
      case None => fallback
    }
  }

  datatype Result<+T, +E> = Success(value: T) | Failure(error: E)
}
