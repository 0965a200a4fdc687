/** Optional values, used for the results of the abstract index engines. */
module Wrappers {
  datatype Option<+T> = None | Some(value: T)
}
