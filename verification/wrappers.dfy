/** Failure-carrying results: a NULL pointer return becomes `None`, an error
    report becomes `Failure`. */
module Wrappers {

  datatype Option<+T> = None | Some(value: T)

  datatype Result<+R, +E> = Success(value: R) | Failure(error: E)
}
