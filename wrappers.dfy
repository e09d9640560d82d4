/** Optional arguments of the tools (`description?`, `priority?`). */
module Wrappers {

  datatype Option<T> = None | Some(value: T) {

    /** The value when present, otherwise the default (`x ?? d`). */
    function GetOr(default: T): T
    {
      match this
      case Some(v) => v
      case None => default
    }
  }
}
