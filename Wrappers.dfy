/** Optional values: a JSON field that may be absent (or null) in an upstream payload. */
module Wrappers {
  datatype Option<+T> = None | Some(value: T)
}
