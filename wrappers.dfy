/** Optional values, for the fields and storage slots the source may leave unset. */
module Wrappers {

  datatype Option<+T> = None | Some(value: T)
}
