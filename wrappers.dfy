/** Optional values: the model's stand-in for a C pointer that may be NULL. */
module Wrappers {
  datatype Option<+T> = None | Some(value: T)
}
