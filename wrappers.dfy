/** Option and Result values, used for the callback-style `(err, value)` results of the source. */
module Wrappers {

  datatype Option<+T> = None | Some(value: T)

  /** `Failure(e)` stands for a callback invoked with an error, `Success(v)` for one invoked with a value. */
  datatype Result<+T, +E> = Success(value: T) | Failure(error: E)
}
