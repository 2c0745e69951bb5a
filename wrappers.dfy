/** Small failure-carrying datatypes used by the rest of the model. */
module Wrappers {

  /** A Java reference that may be null. */
  datatype Option<T> = None | Some(value: T) {
    function GetOr(default: T): T {
      match this
      case Some(v) => v
      case None => default
    }
  }

  /** The outcome of a Java call that either returns a value or throws. */
  datatype Result<T, E> = Ok(value: T) | Err(error: E)
}
