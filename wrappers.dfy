/** The conventional Some/None datatype, used where the Ruby code returns nil. */
module Wrappers {
  datatype Option<+T> = None | Some(value: T)
}
