/** Optional values, standing in for the source's nullable pointers and missing lookups. */
module Wrappers {
  datatype Option<+T> = None | Some(value: T)
}
