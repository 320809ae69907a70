/** The optional value used wherever the Java code returns `null` for "no result". */
module Wrappers {
  datatype Option<+T> = None | Some(value: T)
}
