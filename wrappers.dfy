/** The nullable-reference convention of the Java entity, as a value. */
module Wrappers {

  /** A Java field that may hold `null`: `None` stands for `null`. */
  datatype Option<+T> = None | Some(value: T)
}
