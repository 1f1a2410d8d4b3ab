/** Option and Result, the two failure-carrying shapes the model uses: `null`
    results of the queries become `None`, thrown `Error`s become `Failure`
    carrying the error's message. */
module Wrappers {

  datatype Option<+T> = None | Some(value: T) {
    function GetOr(default: T): T {
      match this
      case Some(v) => v
      case None => default
    }
  }

  datatype Result<+R, +E> = Success(value: R) | Failure(error: E)
}
