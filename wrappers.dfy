/** Optional values: `None` stands for the source's `None` return. */
module Wrappers {
  datatype Option<+T> = None | Some(value: T)
}
