/** Option and Result types shared by the other modules. */
module Wrappers {

  /** A value that may be absent; `None` also stands for JavaScript's `undefined`. */
  datatype Option<+T> = None | Some(value: T)

  /** The outcome of a step that can throw. */
  datatype Result<+T, +E> = Success(value: T) | Failure(error: E)
}
