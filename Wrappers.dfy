/** The optional value used throughout the model for "absent", "not a number" and "no result". */
module Wrappers {

  datatype Option<+T> = None | Some(value: T)
}
