/** Failure-carrying values used at the public boundary of the container. */
module Wrappers {

  /** A possibly absent value: `None` stands for a Java `null` argument. */
  datatype Option<+T> = None | Some(value: T)

  /** Either what a call returned or the exception it threw. */
  datatype Result<+R, +E> = Success(value: R) | Failure(error: E)
}
