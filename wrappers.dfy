/** Result types for the library's absent values and fatal conditions. */
module Wrappers {

  /** An optional value: `Option<&Data>` / `Option<Data>` in the library. */
  datatype Option<+T> = None | Some(value: T)

  /** A value or an error: an operation that would abort the process returns `Failure` instead. */
  datatype Result<+R, +E> = Success(value: R) | Failure(error: E)

  /** An operation without a value that either completes or would abort. */
  datatype Outcome<+E> = Pass | Fail(error: E)
}
