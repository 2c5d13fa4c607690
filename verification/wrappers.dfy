/** Failure-carrying result types used across the model in place of C# null
    returns and thrown exceptions. */
module Wrappers {

  /** A value that may be absent; `None` stands for a C# `null` reference. */
  datatype Option<+T> = None | Some(value: T)

  /** Either a computed value or the error a C# exception would have carried. */
  datatype Result<+T, +E> = Ok(value: T) | Err(error: E)
}
