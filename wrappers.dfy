/** Optional values, standing for Python's `None` and for elements a page may lack. */
module Wrappers {
  datatype Option<+T> = None | Some(value: T)
}
