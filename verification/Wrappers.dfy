/** A value that may be absent: the source's NULL. */
module Wrappers {
  datatype Option<+T> = None | Some(value: T)
}
