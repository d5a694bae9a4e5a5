/** The optional value used for "may fail" results throughout the model. */
module Wrappers {
  datatype Option<+T> = None | Some(value: T)
}
