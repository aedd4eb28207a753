/** Option and Result: the model's stand-ins for Go's `(value, error)` returns and nil-able errors. */
module Wrappers {

  /** An optional value; for a Go `error`, None is nil and Some(msg) is an error whose Error() is msg. */
  datatype Option<+T> = None | Some(value: T)

  /** A value or the text of the error that prevented it. */
  datatype Result<+T, +E> = Ok(value: T) | Err(error: E)
}
