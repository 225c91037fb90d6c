/** Optional values: the model's stand-in for JavaScript's falsy "no value"
    (an empty date string, a `null` validation result, a failed `find`). */
module Wrappers {

  datatype Option<+T> = None | Some(value: T)
}
