/** Optional values: the engine reports "not found" (find, nth) as a value, never as an error. */
module Wrappers {

  /** `None` is the C `false` return; `Some(v)` is `true` with `v` written through the result pointer. */
  datatype Option<+T> = None | Some(value: T)
}
