/** Failure-carrying wrapper used wherever the modelled Python code may find nothing. */
module Wrappers {

  /** A value that may be absent: Python's `None` (no regex match, failed decode). */
  datatype Option<+T> = None | Some(value: T)
}
