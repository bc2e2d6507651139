/** Failure-carrying values shared by the modules of this model. */
module Wrappers {

  /** A value that may be absent. */
  datatype Option<T> = None | Some(value: T)

  /** The value of an operation that may fail with an error of kind E. */
  datatype Result<T, E> = Ok(value: T) | Err(error: E)
}
