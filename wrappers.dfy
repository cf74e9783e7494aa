/** Option and Result, the two failure-carrying shapes the model uses in place
    of Python's None and of the exceptions (KeyError, ValueError) the source raises. */
module Wrappers {

  datatype Option<+T> = None | Some(value: T) {
    function GetOr(default: T): T {
      match this
      case Some(v) => v
      case None => default
    }
  }

  datatype Result<+T, +E> = Success(value: T) | Failure(error: E)
}
