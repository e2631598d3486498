/** Option and Result, for the source's `Option` and `Result<_, &'static str>`. */
module Wrappers {

  datatype Option<+T> = None | Some(value: T) {
    function GetOr(default: T): T {
      match this
      case Some(v) => v
      case None => default
    }
  }

  /** The listing layer reports errors as static strings. */
  datatype Result<+T> = Ok(value: T) | Err(error: string)
}
