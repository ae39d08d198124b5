/** Optional values (Java references that may be null) and results (a value or the
    exception a Java call would throw). */
module Wrappers {

  datatype Option<+T> = None | Some(value: T)

  datatype Result<+R, +E> = Success(value: R) | Failure(error: E)
}
