/** Optional values: a C string that may be NULL becomes an Option<string>. */
module Wrappers {

  datatype Option<+T> = None | Some(value: T)

}
