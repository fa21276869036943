/** Result types shared by the model. */
module Wrappers {

  /** A value that may be absent: an `Optional` result or a Python `None`. */
  datatype Option<+T> = None | Some(value: T)

  /** Success without a value, or a failure carrying the reason (a raised exception). */
  datatype Outcome<+E> = Pass | Fail(error: E)
}
