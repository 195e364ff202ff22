/** Option and Result types shared by the modules of this model. */
module Wrappers {

  datatype Option<+T> = None | Some(value: T)

  /** Rust's `Result<T, E>`: `Ok` on success, `Err` carrying the error otherwise. */
  datatype Result<+T, +E> = Ok(value: T) | Err(error: E)
}
