/** Optional values, for Python expressions that either produce a value or raise. */
module Wrappers {

  datatype Option<+T> = None | Some(value: T)
}
