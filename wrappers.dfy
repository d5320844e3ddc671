/** Optional values, used where the source signals absence with null or an exception. */
module Wrappers {
  datatype Option<+T> = None | Some(value: T)
}
