/** Option, Result and Outcome: a null reference, a value-or-exception and a
    void-or-exception, as the adapter's C# code uses them. */
module Wrappers {

  /** `None` stands for a C# `null`. */
  datatype Option<+T> = None | Some(value: T)

  /** The value an operation returns, or the exception it throws. */
  datatype Result<+T, +E> = Success(value: T) | Failure(error: E)

  /** A `Task` that completes (`Pass`) or faults with an exception (`Fail`). */
  datatype Outcome<+E> = Pass | Fail(error: E)
}
