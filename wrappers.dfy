/** The optional value used for record fields that a stored record may lack. */
module Wrappers {
  datatype Option<+T> = None | Some(value: T)
}
