/** Optional values: the model's stand-in for Java's null. */
module Wrappers {

  /** `None` plays the role of a null reference (an empty square, a pass move). */
  datatype Option<+T> = None | Some(value: T)
}
