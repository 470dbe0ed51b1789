/** Option and Outcome: a value that may be absent (C# null), and the
    success or failure of an operation that throws on bad arguments. */
module Wrappers {

  datatype Option<+T> = None | Some(value: T)

  datatype Outcome<+E> = Pass | Fail(error: E)

  datatype Result<+R, +E> = Success(value: R) | Failure(error: E)
}
