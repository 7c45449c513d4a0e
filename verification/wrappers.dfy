/** Optional values, standing in for Python's `None`. */
module Wrappers {

  /** `None` is Python's `None`; `Some(v)` is a present value `v`. */
  datatype Option<+T> = None | Some(value: T)
}
