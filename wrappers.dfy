/** Option and Result wrappers shared by the modules of the action protocol engine. */
module Wrappers {

  datatype Option<+T> = None | Some(value: T) {
    function GetOr(default: T): T {
      match this
      case Some(v) => v
      case None => default
    }
  }

  /** The outcome of an operation that in the extension may throw an `Error`. */
  datatype Result<+T, +E> = Ok(value: T) | Err(error: E)
}
