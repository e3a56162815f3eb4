/** The optional value used for a raycast that may miss. */
module Wrappers {
  datatype Option<+T> = None | Some(value: T)
}
