/** Option and Result, used for JavaScript's `undefined` and for thrown errors. */
module Wrappers {

  datatype Option<+T> = None | Some(value: T)

  /** A step that either produced a value or threw an error carrying a message. */
  datatype Result<+R> = Success(value: R) | Failure(message: string)
}
