/** Failure-compatible wrappers: PHP's `string|false` becomes an Option, and
    a call that may throw returns a Result. */
module Wrappers {

  datatype Option<+T> = None | Some(value: T)

  datatype Result<+T, +E> = Success(value: T) | Failure(error: E)
}
