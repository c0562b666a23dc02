/** The optional value used where the source leaves an attribute unset or raises on a missing item. */
module Wrappers {
  datatype Option<+T> = None | Some(value: T)
}
