/** Optional values and success-or-error results, used in place of Rust's `Option` and `panic!`. */
module Wrappers {

  datatype Option<+T> = None | Some(value: T)

  datatype Result<+T, +E> = Ok(value: T) | Err(error: E)
}
