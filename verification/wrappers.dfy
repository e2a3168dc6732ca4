/** The optional value the page code meets whenever a DOM lookup may come back empty
    (`querySelector(...)` returning null, an absent `data-category` attribute). */
module Wrappers {

  datatype Option<+T> = None | Some(value: T) {

    /** The value in Some, or the given default when None (the `?.x || d` idiom). */
    function GetOr(default: T): T {
      match this
      case Some(v) => v
      case None => default
    }
  }
}
