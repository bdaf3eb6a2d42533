/** Option and Result: the model's stand-ins for C#'s null references and
    thrown exceptions. */
module Wrappers {

  /** `None` plays the role of a C# `null` reference. */
  datatype Option<+T> = None | Some(value: T)

  /** `Failure` plays the role of an exception thrown by the modelled code. */
  datatype Result<+R, +E> = Success(value: R) | Failure(error: E)
}
