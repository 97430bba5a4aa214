/** Small result types shared by the model. */
module Wrappers {

  /** A value that may be absent (Python's `None`). */
  datatype Option<+T> = None | Some(value: T)

  /** An operation that either completes or raises the error it carries. */
  datatype Outcome<+E> = Pass | Fail(error: E)
}
