/** Small value wrappers shared by the model: JavaScript's `undefined`-or-value and a
    pipeline outcome that is either a payload or an error. */
module Values {

  /** A value that may be JavaScript `undefined` (a missing column, or `x?.trim()` of one). */
  datatype Option<+T> = None | Some(value: T) {
    function GetOr(default: T): T {
      match this
      case Some(v) => v
      case None => default
    }
  }

  /** The outcome of one run of the pipeline. */
  datatype Result<+R, +E> = Ok(value: R) | Err(error: E)
}
