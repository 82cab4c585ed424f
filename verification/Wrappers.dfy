/** Failure-carrying wrappers used to model the launcher's Python exceptions
    and its `None` values. */
module Wrappers {

  /** An optional value: Python's `X | None`. */
  datatype Option<+T> = None | Some(value: T)

  /** A computation that either yields a value or raises an error. */
  datatype Result<+R, +E> = Success(value: R) | Failure(error: E)

  /** Python truthiness of an optional string: `None` and `""` are false. */
  predicate Truthy(s: Option<string>) {
    s.Some? && s.value != ""
  }
}
