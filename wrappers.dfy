/** Optional values: Python's `None`, JavaScript's `null`. */
module Wrappers {
  datatype Option<T> = None | Some(value: T)
}
