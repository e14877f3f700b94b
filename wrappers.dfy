/** The Some/None datatype standing in for Java's null and Python's None. */
module Wrappers {
  datatype Option<+T> = None | Some(value: T)
}
