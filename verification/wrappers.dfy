/** The optional-value type used wherever the source returns `std::optional`. */
module Wrappers {

  /** `None` stands for `std::nullopt`; `Some(v)` for an engaged optional. */
  datatype Option<+T> = None | Some(value: T) {

    /** Returns the value encapsulated in Some, or a default value if None */
    function GetOr(default: T): T {
      match this
      case Some(v) => v
      case None() => default
    }
  }
}
