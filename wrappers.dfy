/** Java's nullable references, written out. */
module Wrappers {
  /** `None` stands for a Java `null`. */
  datatype Option<T> = None | Some(value: T)
}
