/** Option, outcome and result types shared by the modules. */
module Wrappers {

  datatype Option<T> = None | Some(value: T)

  /** The outcome of an operation that either completes or raises an error. */
  datatype Outcome<E> = Pass | Fail(error: E)

  /** A value, or the error raised instead of returning one. */
  datatype Result<T, E> = Ok(value: T) | Err(error: E)
}
