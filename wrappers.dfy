/** The optional value used for "absent" results (a missing attribute, a string that does not parse). */
module Wrappers {
  datatype Option<+T> = None | Some(value: T)
}
