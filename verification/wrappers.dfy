/** Failure-compatible wrappers: a value that may be absent (a C# `null`) and a
    computation that either returns a value or raises an error. */
module Wrappers {

  datatype Option<+T> = None | Some(value: T)

  datatype Result<+R, +E> = Success(value: R) | Failure(error: E)
}
