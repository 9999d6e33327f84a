/** Optional values: a JavaScript `undefined`, `null` or `NaN` that the
    program checks for is modelled as `None`. */
module Wrappers {
  datatype Option<+T> = None | Some(value: T)
}
