/** Outcome types shared by the pipeline stages.

    `Option` stands for a Python value that may be absent (a failed regex
    search, a missing dictionary key); `Result` stands for a stage that either
    returns a value or raises, the error carrying the message text. */
module Results {

  datatype Option<+T> = None | Some(value: T) {

    /** The value, or `default` when absent (Python's `dict.get(key, default)`). */
    function GetOr(default: T): T {
      match this
      case Some(v) => v
      case None => default
    }
  }

  datatype Result<+T> = Ok(value: T) | Err(error: string)
}
