/** The value types the service hands back instead of throwing. */
module Outcomes {

  /** An optional value: a field absent from a payload, or a query that found nothing. */
  datatype Option<+T> = None | Some(value: T) {

    /** The value when present, `default` otherwise (a destructuring default). */
    function GetOr(default: T): T {
      match this
      case Some(v) => v
      case None => default
    }
  }

  /** What a caller of the service observes: a value, or one of the three
      error classes the HTTP layer turns into 404, 400 and 500. */
  datatype Result<+T> =
    | Ok(value: T)
    | NotFound(message: string)
    | BadRequest(message: string)
    | InternalError(message: string)
}
