/** Optional values, used where the source returns `null`/`undefined` or a
    regular-expression match that may fail. */
module Wrappers {
  datatype Option<+T> = None | Some(value: T)
}
