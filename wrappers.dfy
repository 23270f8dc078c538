/** Failure-compatible result types shared by the three programs. */
module Wrappers {

  /** An optional value: the model of a C++ `bool`-returning lookup with an out-parameter. */
  datatype Option<+T> = None | Some(value: T)

  /** A value or an error: the model of a C++ function that may throw. */
  datatype Result<+T, +E> = Success(value: T) | Failure(error: E)
}
