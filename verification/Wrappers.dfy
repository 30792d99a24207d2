/** The usual optional value, for SQL columns that may be NULL and lookups that may fail. */
module Wrappers {
  datatype Option<+T> = None | Some(value: T)
}
