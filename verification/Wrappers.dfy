/** Optional values, and results of operations that may throw. */
module Wrappers {
  datatype Option<+T> = None | Some(value: T)

  /** The standard exceptions the containers and views throw. */
  datatype Exception = OutOfRange | LengthError | LogicError | InvalidArgument

  datatype Result<+T> = Ok(value: T) | Throw(exception: Exception)
}
