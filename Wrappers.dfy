/** Optional values: a JSON field that may be absent, a reply the model may not give. */
module Wrappers {
  datatype Option<+T> = None | Some(value: T)
}
