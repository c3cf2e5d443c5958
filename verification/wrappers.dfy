/** Option and Result, the two failure-carrying shapes used across the model. */
module Wrappers {

  datatype Option<+T> = None | Some(value: T)

  /** A JavaScript `throw` is modelled as `Failure` carrying the error message. */
  datatype Result<+R> = Success(value: R) | Failure(error: string)
}
