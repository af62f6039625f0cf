/** The optional value used for nullable columns, lookups and partial results. */
module Wrappers {
  datatype Option<+T> = None | Some(value: T)
}
