/** Option, Result and Outcome: nullable references, values-or-exceptions and
    void-or-exception results of the modelled C# code. */
module Wrappers {

  datatype Option<+T> = None | Some(value: T)

  datatype Result<+T, +E> = Success(value: T) | Failure(error: E)

  datatype Outcome<+E> = Pass | Fail(error: E)
}
