/** Failure-compatible result types shared by the layout modules. */
module Wrappers {

  /** An optional value. */
  datatype Option<+T> = None | Some(value: T)

  /** Either a value or the reason no value could be produced. */
  datatype Result<+T, +E> = Success(value: T) | Failure(error: E)
}
