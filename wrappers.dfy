/** Optional values: JavaScript's `undefined`/`null` for a slot that may be empty. */
module Wrappers {

  datatype Option<+T> = None | Some(value: T)
}
