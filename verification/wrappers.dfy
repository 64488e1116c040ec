/** Optional values: a lookup or oracle that may produce nothing. */
module Wrappers {

  datatype Option<+T> = None | Some(value: T)
}
