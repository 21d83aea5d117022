/** The optional value used wherever the application works with a nullable reference. */
module Wrappers {

  datatype Option<+T> = None | Some(value: T)
}
