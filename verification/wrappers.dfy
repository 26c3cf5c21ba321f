/** Optional values, used wherever the server can fail or a lookup can miss. */
module Wrappers {

  datatype Option<+T> = None | Some(value: T)
}
