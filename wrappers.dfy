/** The optional value used where the controller holds a nullable reference or string. */
module Wrappers {

  datatype Option<+T> = None | Some(value: T)
}
