/** Outcomes of the file service: a value, or the HTTP error status that the
    service's ResponseStatusException (or an uncaught exception) turns into. */
module Results {

  datatype Option<+T> = None | Some(value: T)

  /** The error kinds the service raises, each with the status Spring sends. */
  datatype Error =
    | BadRequest            // 400: unsupported content type, malformed Range header
    | NotFound              // 404: no record with that file name
    | RangeNotSatisfiable   // 416: start > end, or start beyond the file
    | InternalServerError   // 500: store, encoder or unexpected runtime failure
  {
    function Status(): (code: int)
      ensures 400 <= code < 600
      ensures code == 500 <==> this == InternalServerError
    {
      match this
      case BadRequest => 400
      case NotFound => 404
      case RangeNotSatisfiable => 416
      case InternalServerError => 500
    }
  }

  datatype Result<+T> = Ok(value: T) | Err(error: Error)
}
