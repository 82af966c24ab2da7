/** The usual optional value: Go's nil-able pointers and parse results. */
module Wrappers {
  datatype Option<+T> = None | Some(value: T)
}
