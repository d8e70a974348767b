/** The Option type used wherever the Java code returns or accepts a possibly-null reference. */
module Wrappers {

  /** `None` stands for Java's `null`; `Some(v)` for a present value. */
  datatype Option<+T> = None | Some(value: T)
}
