/** A value that may be absent: a lookup that finds nothing, a file that cannot be opened. */
module Wrappers {
  datatype Option<T> = None | Some(value: T)
}
