/** The usual optional-value datatype, used for dictionary lookups that may miss. */
module Wrappers {
  datatype Option<+T> = None | Some(value: T)
}
