/** Optional values: the Python `None` a lookup or a move may return. */
module Wrappers {

  datatype Option<+T> = None | Some(value: T)
}
