/** Failure-aware result types shared by the scraper model. */
module Wrappers {

  /** A value that may be absent: an HTML element or attribute that a lookup did not find. */
  datatype Option<+T> = None | Some(value: T) {
    /** The value, or `default` when absent. */
    function GetOr(default: T): T {
      match this
      case Some(v) => v
      case None => default
    }
  }

  /** Either a value or an exception that escapes to the caller. */
  datatype Result<+T, +E> = Success(value: T) | Failure(error: E)

  /** The Python exceptions that the scraper lets escape. */
  datatype Exception =
    | KeyError    // subscripting a tag with an attribute it does not carry
    | ValueError  // no browser driver in the scraping context
}
