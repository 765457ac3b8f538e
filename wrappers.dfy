/** The `Option` and `Result` types the containers return, named as in Rust. */
module Wrappers {

  datatype Option<+T> = None | Some(value: T)

  /** `Ok` carries the success value, `Err` the rejected input or the insertion point. */
  datatype Result<+T, +E> = Ok(value: T) | Err(error: E)
}
