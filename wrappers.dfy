/** Plain wrapper datatypes used across the model: `Option` for TypeScript's
    `T | null | undefined`, `Result` for an engine call that either yields a value or
    throws, `Outcome` for a `Promise<void>` that either resolves or rejects. */
module Wrappers {

  datatype Option<+T> = None | Some(value: T) {

    /** The encapsulated value, or `default` when there is none. */
    function GetOr(default: T): T {
      match this
      case Some(v) => v
      case None => default
    }
  }

  datatype Result<+R, +E> = Success(value: R) | Failure(error: E)

  datatype Outcome<+E> = Pass | Fail(error: E)
}
