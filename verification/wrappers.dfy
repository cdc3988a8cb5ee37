/** Optional values, used for parent links that may be NULL and for searches
    that may find nothing. */
module Wrappers {

  datatype Option<+T> = None | Some(value: T)
}
