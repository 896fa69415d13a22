/** Optional values, for the store's "no result" outcomes. */
module Wrappers {

  datatype Option<+T> = None | Some(value: T)
}
