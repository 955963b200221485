/** Option and Result values used across the model in place of `undefined` and thrown errors. */
module Results {

  datatype Option<+T> = None | Some(value: T) {
    function GetOr(default: T): T {
      match this
      case Some(v) => v
      case None => default
    }
  }

  /** The outcome of an operation that either yields a value or fails with an error message. */
  datatype Result<+T> = Ok(value: T) | Err(message: string)
}
