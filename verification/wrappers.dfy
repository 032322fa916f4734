/** The optional-value datatype shared by every module of the model.
    `None` stands for JavaScript `undefined` (or `null` where the source does
    not distinguish the two) and for a Python call that has no result. */
module Wrappers {

  datatype Option<+T> = None | Some(value: T) {

    /** Returns the value held in `Some`, or `default` for `None`. */
    function GetOr(default: T): (r: T)
      ensures Some? ==> r == value
      ensures None? ==> r == default
    {
      match this
      case Some(v) => v
      case None => default
    }
  }
}
