/** Absent values and failing operations, shared by every other module.
    `Option` stands for TypeScript's `T | undefined` / `T | null`, and
    `Result` for a storage call that can reject (a primary-key conflict). */
module Optional {

  datatype Option<+T> = None | Some(value: T) {

    /** The value, or `default` when absent (TypeScript's `??`). */
    function GetOr(default: T): T {
      match this
      case Some(v) => v
      case None => default
    }
  }

  datatype Result<+T, +E> = Ok(value: T) | Err(error: E)
}
