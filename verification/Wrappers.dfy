/** A value that may be absent: Python's `None`, a null reference, a failed lookup. */
module Wrappers {
  datatype Option<+T> = None | Some(value: T)
}
