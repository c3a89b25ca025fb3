/** Option and result types shared by the catalogue model: C#'s nullable
    references and `int?` become Option, and the EntityNotFoundException a
    data-layer call can throw becomes the failure half of Result/Outcome. */
module Wrappers {

  /** A value that may be absent (C# `null`). */
  datatype Option<+T> = None | Some(value: T)

  /** The outcome of a call that returns a value or fails. */
  datatype Result<+R, +E> = Success(value: R) | Failure(error: E)

  /** The outcome of a call that returns nothing or fails. */
  datatype Outcome<+E> = Pass | Fail(error: E)
}
