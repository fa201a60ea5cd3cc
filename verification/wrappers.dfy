/** Optional values and success/failure results, standing in for the source's
    `null` references and thrown exceptions. */
module Wrappers {

  /** `None` plays the role of a C# `null` reference. */
  datatype Option<+T> = None | Some(value: T)

  /** `Failure` plays the role of an exception that ends the current step. */
  datatype Result<+T> = Success(value: T) | Failure(error: string)
}
