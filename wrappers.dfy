/** Optional values: a missing environment setting, a character not found. */
module Wrappers {
  datatype Option<T> = None | Some(value: T)
}
