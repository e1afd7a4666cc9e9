/** The Option type used where the source has a nullable reference or a failure path. */
module Wrappers {
  datatype Option<+T> = None | Some(value: T)
}
