/** Failure-carrying result types shared by the modules of this model. */
module Wrappers {

  /** An optional value: `None` where the program has nothing to give. */
  datatype Option<+T> = None | Some(value: T)

  /** The outcome of an operation that either yields a value or raises an error. */
  datatype Result<+R, +E> = Success(value: R) | Failure(error: E)
}
