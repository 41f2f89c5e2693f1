/** Absent-or-present values and success-or-error results, the model's stand-ins
    for C# nulls and thrown exceptions. */
module Wrappers {

  /** `None` plays the part of a `null` reference. */
  datatype Option<+T> = None | Some(value: T)

  /** `Failure` plays the part of an exception that escapes the operation. */
  datatype Result<+R, +E> = Success(value: R) | Failure(error: E)
}
