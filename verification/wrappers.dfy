/** The absent-or-present value used wherever the game code stores `null` or a value. */
module Wrappers {
  datatype Option<+T> = None | Some(value: T)
}
