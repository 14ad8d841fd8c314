/** A value that may be missing, for pointers that may be null and results that C leaves undefined. */
module Wrappers {
  datatype Option<+T> = None | Some(value: T)
}
