/** Option and Outcome values for the operations that can fail. */
module Wrappers {

  datatype Option<+T> = None | Some(value: T)

  /** The result of an operation that returns nothing or raises an exception. */
  datatype Outcome<+E> = Pass | Fail(error: E)
}
