/** An optional value, for lookups and searches that may come back empty. */
module Wrappers {
  datatype Option<+T> = None | Some(value: T)
}
