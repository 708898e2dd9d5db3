/** The optional value used wherever the Java code holds a reference that may be null. */
module Wrappers {

  datatype Option<+T> = None | Some(value: T)
}
