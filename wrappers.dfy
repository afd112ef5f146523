/** Option and the outcome of a JavaScript evaluation that may throw. */
module Wrappers {

  datatype Option<+T> = None | Some(value: T)

  /** A computation either returns a value or throws an exception. */
  datatype Outcome<+T> = Returned(value: T) | Threw
}
