/** Optional values and success-or-error results, the shape every operation
    of the model returns. */
module Results {

  datatype Option<+T> = None | Some(value: T) {

    /** The carried value, or `default` when there is none. */
    function GetOr(default: T): T {
      match this
      case Some(v) => v
      case None => default
    }
  }

  /** A rejected request carries no store: nothing is written before the
      validation that raised. */
  datatype Result<+T, +E> = Success(value: T) | Failure(error: E)
}
