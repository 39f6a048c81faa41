/** The optional value used wherever the game code stores or returns `null`. */
module Wrappers {

  /** `None` plays the role of JavaScript's `null`. */
  datatype Option<+T> = None | Some(value: T)
}
