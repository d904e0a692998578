/** Option and Result, the two failure-carrying types the codec returns. */
module Wrappers {

  datatype Option<+T> = None | Some(value: T) {

    /** Rust's `unwrap_or`: the carried value, or `default` when absent. */
    function UnwrapOr(default: T): T {
      match this
      case Some(v) => v
      case None => default
    }
  }

  datatype Result<+T, +E> = Ok(value: T) | Err(error: E) {

    /** Rust's `Result::map`: transform the success value, keep the error. */
    function Map<U>(f: T -> U): Result<U, E> {
      match this
      case Ok(v) => Ok(f(v))
      case Err(e) => Err(e)
    }

    /** Rust's `unwrap_or`: the success value, or `default` on an error. */
    function UnwrapOr(default: T): T {
      match this
      case Ok(v) => v
      case Err(_) => default
    }
  }
}
