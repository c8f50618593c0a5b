/** Failure-carrying wrappers shared by the rest of the model. */
module Base {

  /** Ruby's `nil`-or-value, as returned by a lookup. */
  datatype Option<+T> = None | Some(value: T)

  /** The outcome of a setup step: a value, or the configuration error it raised. */
  datatype Result<+T, +E> = Success(value: T) | Failure(error: E)
}
