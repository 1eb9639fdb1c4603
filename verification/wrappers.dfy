/** Failure-compatible wrappers used in place of .NET null references and exceptions. */
module Wrappers {

  /** An optional value: `None` stands for a .NET `null` reference. */
  datatype Option<+T> = None | Some(value: T)

  /** The outcome of an operation that .NET would end by throwing an exception. */
  datatype Result<+R, +E> = Success(value: R) | Failure(error: E)
}
