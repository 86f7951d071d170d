/** Optional values: a matrix slot that a broken table leaves empty, a span attribute that is absent. */
module Wrappers {
  datatype Option<+T> = None | Some(value: T)
}
