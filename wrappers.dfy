/** Optional values: a nanosvg pointer that may be NULL. */
module Wrappers {
  datatype Option<+T> = None | Some(value: T)
}
