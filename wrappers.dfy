/** The optional value used for the screen's nullable state and for optional marker fields. */
module Wrappers {
  datatype Option<T> = None | Some(value: T)
}
