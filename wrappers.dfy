/** Option and Result, the shapes the model uses for Python's `None` and for raised errors. */
module Wrappers {

  datatype Option<+T> = None | Some(value: T) {
    /** `x or default`: the wrapped value, or the default when absent. */
    function GetOr(default: T): T {
      match this
      case Some(v) => v
      case None => default
    }
  }

  datatype Result<+T, +E> = Success(value: T) | Failure(error: E)
}
