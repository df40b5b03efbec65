/** Optional values: stands for JavaScript's `undefined` / `null` where the
    source checks for them. */
module Wrappers {

  datatype Option<+T> = None | Some(value: T)
}
