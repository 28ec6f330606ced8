/** An optional value, used where the modelled code either produces a value or fails. */
module Wrappers {
  datatype Option<+T> = None | Some(value: T)
}
