/** Optional values. SQL NULL and an unset environment variable are both `None`. */
module Wrappers {

  datatype Option<+T> = None | Some(value: T)
}
