/** The optional value used wherever the scraper may find nothing. */
module Wrappers {

  datatype Option<+T> = None | Some(value: T) {

    /** The value if there is one, the supplied default otherwise. */
    function GetOr(default: T): T {
      match this
      case Some(v) => v
      case None => default
    }
  }
}
