/** Optional values, used where the source returns "nothing found" or fails to parse. */
module Wrappers {
  datatype Option<+T> = None | Some(value: T)
}
