/** The optional value used where the activity holds a nullable reference. */
module Wrappers {
  datatype Option<+T> = None | Some(value: T)
}
