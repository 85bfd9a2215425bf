/** Optional values, for the keys, lookups and results that may be absent. */
module Wrappers {

  datatype Option<T> = None | Some(value: T)
}
