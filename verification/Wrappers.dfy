/** Optional values, used for Go's nil-able errors, keys and references. */
module Wrappers {
  datatype Option<+T> = None | Some(value: T)
}
