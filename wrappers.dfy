/** Option, used wherever the Java code returns null or has nothing to report. */
module Wrappers {
  datatype Option<+T> = None | Some(value: T)
}
