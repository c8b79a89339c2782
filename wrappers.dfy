/** The optional value used for lookups and callbacks that may fail. */
module Wrappers {
  datatype Option<+T> = None | Some(value: T)
}
