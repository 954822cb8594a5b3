/** Optional values, standing for SQL NULL, `null` and `undefined` alike. */
module Wrappers {
  datatype Option<+T> = None | Some(value: T)
}
