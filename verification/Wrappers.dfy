/** Results of operations that may fail: C++ assertions that abort, and lookups that find nothing. */
module Wrappers {
  datatype Option<+T> = None | Some(value: T)
}
