/** Optional values: JavaScript's `null`/`undefined`, or a call that threw. */
module Wrappers {
  datatype Option<+T> = None | Some(value: T)
}
