/** Failure-compatible result types shared by the modules of the model. */
module Wrappers {

  /** `Option<T>` of the source: a lookup that may find nothing. */
  datatype Option<+T> = None | Some(value: T)

  /** A value or the reason the source would have panicked instead of returning it. */
  datatype Result<+R, +E> = Ok(value: R) | Err(error: E)

  /** An operation that returns nothing on success, or the reason it panicked. */
  datatype Outcome<+E> = Pass | Fail(error: E)
}
