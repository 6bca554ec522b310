/** Option and Result values for the places where the Python code returns
    None or raises an exception. */
module Wrappers {

  datatype Option<+T> = None | Some(value: T) {
    function GetOr(default: T): T {
      match this
      case Some(v) => v
      case None => default
    }
  }

  /** Why a run aborts: each constructor names the exception the source raises. */
  datatype Error =
    | ValueError(reason: string)
    | IndexError(reason: string)
    | TypeError(reason: string)
    | ZeroDivisionError(reason: string)

  datatype Result<+T> = Ok(value: T) | Err(error: Error)
}
