/** Option and Result, used for the source's null values and thrown exceptions. */
module Wrappers {

  /** `None` stands for a C# `null`. */
  datatype Option<+T> = None | Some(value: T)

  /** `Failure` stands for an exception the source lets escape. */
  datatype Result<+T, +E> = Success(value: T) | Failure(error: E)
}
