/** Option and Result values shared by the content store model. */
module Wrappers {

  /** A nullable value (`T | null` in the source): `None` is `null`. */
  datatype Option<+T> = None | Some(value: T) {
    /** The value, or `default` when there is none. */
    function GetOr(default: T): T {
      match this
      case Some(v) => v
      case None => default
    }
  }

  /** The two failures a handler reports to its caller. */
  datatype StoreError =
    | NotFound   // the referenced menu item or page content does not exist
    | Conflict   // another menu item already holds the slug

  /** What a mutating handler returns: the written record or the failure. */
  datatype Result<+T> = Ok(value: T) | Err(error: StoreError)
}
