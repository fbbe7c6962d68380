/** The optional value used for lookups that can fail and for parse errors. */
module Wrappers {
  datatype Option<+T> = None | Some(value: T)
}
