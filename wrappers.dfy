/** Optional values, used for the source's nullable fields and look-ups. */
module Wrappers {

  datatype Option<+T> = None | Some(value: T)
}
