/** Option and Result: an optional field, and a value or the exception thrown instead. */
module Wrappers {

  /** An optional field of a TypeScript record: `None` is `null` or `undefined`. */
  datatype Option<+T> = None | Some(value: T) {

    /** The nullish-coalescing operator: `this ?? default`. */
    function GetOr(default: T): T {
      match this
      case Some(v) => v
      case None => default
    }
  }

  /** A value, or the exception that the TypeScript code would throw instead. */
  datatype Result<+R, +E> = Ok(value: R) | Err(error: E)
}
