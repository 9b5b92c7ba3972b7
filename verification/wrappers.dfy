/** Failure-carrying datatypes shared by the model. */
module Wrappers {

  /** A value that may be missing: an absent form key, an absent upload, no match. */
  datatype Option<+T> = None | Some(value: T) {

    /** The carried value, or `default` when there is none. */
    function GetOr(default: T): T {
      match this
      case Some(v) => v
      case None => default
    }
  }

  /** The outcome of a query against the reference tables: the rows it returned,
      or the fact that it raised a database exception. */
  datatype LookupResult<+R> = Rows(rows: seq<R>) | LookupFailed
}
