/** Failure-carrying result types shared by the vault and the storage model. */
module Wrappers {

  datatype Option<+T> = None | Some(value: T)

  /** The Go functions of the vault return `(value, error)`; here that pair is a Result. */
  datatype Result<+R, +E> = Success(value: R) | Failure(error: E)
}
