/** The absent-or-present values and the thrown-or-returned results used across the model. */
module Wrappers {
  datatype Option<+T> = None | Some(value: T)

  datatype Outcome<+T> = Returned(value: T) | Threw
}
