/** Optional values (a pandas cell that may be missing) and results that may
    carry an error (an exception raised while the table is processed). */
module Wrappers {

  datatype Option<+T> = None | Some(value: T)

  datatype Result<+T, +E> = Success(value: T) | Failure(error: E)
}
