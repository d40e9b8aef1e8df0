/** The optional value used where JavaScript produces NaN instead of a number. */
module Wrappers {
  datatype Option<+T> = None | Some(value: T)
}
