/** A nullable reference or optional value, as C's NULL pointers are used here. */
module Wrappers {
  datatype Option<+T> = None | Some(value: T)
}
