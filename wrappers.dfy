/** Optional values: a JavaScript `undefined`, `false` or `null` result, or a value. */
module Wrappers {

  datatype Option<+T> = None | Some(value: T)
}
