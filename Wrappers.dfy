/** Optional values: an absent page, a failed request, a translation that raised. */
module Wrappers {
  datatype Option<T> = None | Some(value: T)
}
