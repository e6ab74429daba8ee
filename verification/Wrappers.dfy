/** The optional value used throughout the model for null pointers and failed look-ups. */
module Wrappers {
  datatype Maybe<+T> = None | Some(value: T)
}
