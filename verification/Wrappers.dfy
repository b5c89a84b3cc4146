/** Optional values, where zenodb has nil or a "found" flag. */
module Wrappers {
  datatype Option<+T> = None | Some(value: T)
}
