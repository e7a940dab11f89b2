/** The optional-value datatype shared by every module of the model. A Python
    `None`, a failed strategy, or a `select_one` that found nothing is `None`. */
module Wrappers {

  datatype Option<+T> = None | Some(value: T) {

    /** The value if present, otherwise `default` (Python's `x or default`
        when `x` may be `None`, and `dict.get(key, default)`). */
    function GetOr(default: T): T {
      match this
      case Some(v) => v
      case None => default
    }
  }
}
