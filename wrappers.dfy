/** Python's `None`-or-value arguments. */
module Wrappers {
  datatype Option<+T> = None | Some(value: T)
}
