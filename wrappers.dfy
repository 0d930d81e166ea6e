/** Small helper datatypes shared by the modules of the model. */
module Wrappers {

  /** A value that may be absent: a SQL NULL, a Java null, a missing row. */
  datatype Option<+T> = None | Some(value: T)
}
