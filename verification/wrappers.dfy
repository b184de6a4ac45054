/** Optional values, used wherever the source may hold nothing or a lookup that may miss. */
module Wrappers {
  datatype Option<+T> = None | Some(value: T)
}
