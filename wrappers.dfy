/** The Option datatype used for the nullable values of the source (`null`, `undefined`). */
module Wrappers {
  datatype Option<+T> = None | Some(value: T)
}
