/** Optional values: the source signals "nothing found" with None. */
module Wrappers {
  datatype Option<+T> = None | Some(value: T)
}
