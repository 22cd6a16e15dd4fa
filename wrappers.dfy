/** Option and Result, the two failure-carrying datatypes the model uses. */
module Wrappers {

  /** A Python value that may be None, or a dictionary key that may be absent. */
  datatype Option<+T> = None | Some(value: T) {

    /** `d.get(key, default)` once the lookup has produced this option. */
    function GetOr(default: T): T {
      match this
      case Some(v) => v
      case None => default
    }
  }

  /** A call that either returns a value or raises an error. */
  datatype Result<+T, +E> = Ok(value: T) | Err(error: E)
}
