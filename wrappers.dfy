/** The optional value used for Java's nullable references. */
module Wrappers {

  /** `None` stands for `null`. */
  datatype Option<+T> = None | Some(value: T)
}
