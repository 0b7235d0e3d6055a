/** The optional value used for lookups and parsers that may find nothing. */
module Wrappers {
  datatype Option<+T> = None | Some(value: T)
}
