/** Optional values. */
module Wrappers {

  /** `None` stands for an absent value, `Some(v)` for a present one. */
  datatype Option<+T> = None | Some(value: T)
}
