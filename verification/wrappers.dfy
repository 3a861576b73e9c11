/** Optional values: a missing scene reference, an enum code outside the declared range. */
module Wrappers {

  datatype Option<+T> = None | Some(value: T)
}
