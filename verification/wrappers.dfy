/** A value that may be absent: Python's `None` for a missing result. */
module Wrappers {
  datatype Option<+T> = None | Some(value: T)
}
