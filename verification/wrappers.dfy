/** Optional values: C#'s `null` for a string result. */
module Wrappers {

  datatype Option<+T> = None | Some(value: T)
}
