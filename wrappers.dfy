/** Optional values: `null`/`undefined` in the game hub become `None`. */
module Wrappers {
  datatype Option<+T> = None | Some(value: T)
}
