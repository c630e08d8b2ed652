/** Option and Result: the model's stand-ins for C# null references and for
    exceptions raised by a constructor or a call. */
module Wrappers {

  /** `None` plays the part of a C# `null`. */
  datatype Option<+T> = None | Some(value: T)

  /** `Failure` carries the exception a C# member would throw. */
  datatype Result<+R, +E> = Success(value: R) | Failure(error: E)
}
