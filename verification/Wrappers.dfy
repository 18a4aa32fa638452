/** Optional values, for the source's null results and for its "not set" sentinels. */
module Wrappers {
  datatype Option<+T> = None | Some(value: T)
}
