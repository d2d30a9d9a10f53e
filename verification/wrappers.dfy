/** Optional values: Ruby's `nil` for a missing attribute or a missing row. */
module Wrappers {

  datatype Option<+T> = None | Some(value: T)
}
