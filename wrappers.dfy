/// The optional-value type used for lookups that may have nothing to give.
module Wrappers {
  datatype Option<+T> = None | Some(value: T)
}
