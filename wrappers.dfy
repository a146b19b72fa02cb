/** Optional values, for lookups that may miss. */
module Wrappers {

  datatype Option<+T> = None | Some(value: T)
}
