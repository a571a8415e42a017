/** Small failure-carrying datatypes shared by every module of the model. */
module Common {

  /** A value that may be absent: JavaScript's `undefined` (or `null`) versus a present value. */
  datatype Option<+T> = None | Some(value: T) {

    /** The present value, or `default` when absent. */
    function GetOr(default: T): T {
      match this
      case Some(v) => v
      case None => default
    }
  }

  /** The outcome of an operation that returns a value or throws an error. */
  datatype Result<+R, +E> = Ok(value: R) | Err(error: E)
}
