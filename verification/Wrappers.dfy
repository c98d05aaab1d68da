/** Failure-carrying datatypes used throughout the wiki model.
    - Option<T>: a lookup that may miss (a page file that is absent).
    - Result<T>: an operation that may fail with an error message (a Go `error`).
 */
module Wrappers {

  datatype Option<+T> = None | Some(value: T) {

    /** The carried value, or `default` when there is none. */
    function GetOr(default: T): T {
      match this
      case Some(v) => v
      case None => default
    }
  }

  /** Go functions return `(value, error)`; the model keeps exactly one of the two. */
  datatype Result<+T> = Ok(value: T) | Err(message: string)
}
