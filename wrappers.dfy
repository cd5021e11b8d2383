/** Optional values and failure-carrying results, used for the source's None values and raised exceptions. */
module Wrappers {

  datatype Option<+T> = None | Some(value: T) {
    /** Python's `x or default` / `d.get(k, default)`. */
    function GetOr(default: T): T {
      match this
      case Some(v) => v
      case None => default
    }
  }

  /** The outcome of a step that may raise: the value, or the message of the exception. */
  datatype Result<+T> = Ok(value: T) | Err(message: string)

  /**
   * What reading a file gives the program: the file is absent, reading or
   * decoding it raises, or its decoded content.
   */
  datatype Source<+T> = Missing | Unreadable | Loaded(content: T)
}
