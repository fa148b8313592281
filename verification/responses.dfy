/** How a handler ends: a value for a 2xx response, or one of the error kinds
    the service answers with, each carrying its fixed status code and message. */
module Responses {

  datatype ErrorKind =
    | Forbidden        // the API-key gate rejected the request
    | BadRequest       // the search endpoint got no name to search for
    | ValidationError  // a create request lacks a required field
    | NotFound         // no product carries the requested id

  function StatusCode(e: ErrorKind): nat {
    match e
    case Forbidden => 403
    case BadRequest => 400
    case ValidationError => 400
    case NotFound => 404
  }

  /** The `error` field of the JSON body sent with each kind. */
  function ErrorMessage(e: ErrorKind): string {
    match e
    case Forbidden => "Forbidden: Invalid API Key"
    case BadRequest => "Please provide a name to search"
    case ValidationError => "Missing required fields"
    case NotFound => "Product not found"
  }

  datatype Result<+T> = Ok(value: T) | Err(error: ErrorKind)
}
