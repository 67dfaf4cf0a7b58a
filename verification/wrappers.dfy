/** The optional and fallible results shared by every module. */
module Wrappers {

  datatype Option<T> = None | Some(value: T)

  /** A computation that either produces a value or stops with an error
      (a Rust `panic!`/`expect` or a Python exception in the original). */
  datatype Result<T, E> = Ok(value: T) | Err(error: E)
}
