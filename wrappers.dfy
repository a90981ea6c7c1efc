/** Optional values; `None` stands for a token that `int()` could not parse. */
module Wrappers {
  datatype Option<+T> = None | Some(value: T)
}
