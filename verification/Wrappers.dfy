/** A value that may be absent, where the source returns NULL or an error. */
module Wrappers {
  datatype Option<+T> = None | Some(value: T)
}
