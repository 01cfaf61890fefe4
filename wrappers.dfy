/** The Option datatype used for the service's nullable results. */
module Wrappers {
  datatype Option<+T> = None | Some(value: T)
}
