/** An optional value, used for response fields that a reply may leave out. */
module Wrappers {

  datatype Option<+T> = None | Some(value: T)
}
