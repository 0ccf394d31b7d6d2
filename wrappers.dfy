/// Optional values and success-or-error results, the model's stand-ins for
/// TypeScript's `undefined`-able fields and thrown exceptions.
module Wrappers {

  datatype Option<+T> = None | Some(value: T) {
    function GetOr(default: T): T {
      match this
      case Some(v) => v
      case None => default
    }
  }

  datatype Result<+R, +E> = Success(value: R) | Failure(error: E)
}
