/** Optional values, for lookups that may find nothing and inputs that may
    be missing. */
module Wrappers {

  datatype Option<+T> = None | Some(value: T)
}
