/** Optional values, used for "no match" and "no such position" results. */
module Wrappers {

  datatype Option<+T> = None | Some(value: T)
}
