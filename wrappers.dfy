/** The optional value used wherever the panel's Java code stores or returns null. */
module Wrappers {
  datatype Option<+T> = None | Some(value: T)
}
