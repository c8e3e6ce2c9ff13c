/** Option and Result: the absent value and the refused operation. */
module Wrappers {

  datatype Option<+T> = None | Some(value: T)

  /** The outcome of a store operation: the new value, or the reason it was refused. */
  datatype Result<+R, +E> = Success(value: R) | Failure(error: E)
}
