/** A Java reference that may be null, as an explicit value. */
module Wrappers {

  datatype Option<+T> = None | Some(value: T)
}
