/** Optional values, used wherever the source can produce `undefined`, `null` or `NaN`. */
module Wrappers {

  datatype Option<+T> = None | Some(value: T)
}
