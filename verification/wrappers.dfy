/** The conventional optional value: a missing selection, a cancelled dialog, a dropped line. */
module Wrappers {
  datatype Option<+T> = None | Some(value: T)
}
