/** A value that may be missing: a NULL pointer or an absent row. */
module Wrappers {

  datatype Option<+T> = None | Some(value: T)
}
