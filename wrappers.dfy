/** The optional value used for "no row", "no session key" and "no error". */
module Wrappers {
  datatype Option<+T> = None | Some(value: T)
}
