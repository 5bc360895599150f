/** Optional values and handler results, shared by the store transitions. */
module Wrappers {

  /** An optional value: `None` stands for a field the client did not send. */
  datatype Option<+T> = None | Some(value: T)

  /** The outcome of a handler: the new value, or the error it answers with. */
  datatype Result<+T, +E> = Success(value: T) | Failure(error: E)
}
