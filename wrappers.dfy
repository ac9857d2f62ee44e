/** Small failure-carrying datatypes shared by the other modules. */
module Wrappers {

  /** A value that may be absent (Python's `Optional[...]`, `None`). */
  datatype Option<+T> = None | Some(value: T)

  /** The outcome of a call that returns nothing but may fail with an error. */
  datatype Outcome<+E> = Pass | Fail(error: E)
}
