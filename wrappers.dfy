/** Failure-carrying return values standing for the exceptions the source throws. */
module Wrappers {

  datatype Option<T> = None | Some(value: T)

  datatype Outcome<T, E> = Success(value: T) | Failure(error: E)
}
