/** The optional value used for nullable fields and failed lookups. */
module Wrappers {
  datatype Option<+T> = None | Some(value: T)
}
