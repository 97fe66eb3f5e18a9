/** Small shared datatypes: the Java code signals "nothing" with null. */
module Wrappers {

  /** A value that may be absent: Java's `null` result. */
  datatype Option<T> = None | Some(value: T)
}
