/** Option and Result, the two failure-carrying shapes the model uses for Go's
    `(value, error)` returns and for lookups that may find nothing. */
module Wrappers {

  datatype Option<+T> = None | Some(value: T)

  /** `Failure(message)` stands for a non-nil Go `error` whose `Error()` is `message`. */
  datatype Result<+T, +E> = Success(value: T) | Failure(error: E)
}
