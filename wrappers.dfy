/** Optional values: JavaScript's `null` / missing value next to a present one. */
module Wrappers {

  datatype Option<+T> = None | Some(value: T)
}
