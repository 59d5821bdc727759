/** Optional values, results and the two exceptions the engine can raise. */
module Wrappers {

  datatype Option<+T> = None | Some(value: T)

  datatype Result<+T, +E> = Success(value: T) | Failure(error: E)

  /** The Python exceptions that escape the core. */
  datatype Error =
    | KeyError(name: string)  // unknown transformation; the message is reduced to the name
    | TypeError               // a value that is neither a word nor a reading
}
