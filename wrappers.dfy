/** The optional value used for the C library's nullable pointers. */
module Wrappers {
  datatype Option<+T> = None | Some(value: T)
}
