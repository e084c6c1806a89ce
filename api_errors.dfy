/** The single mapping from a caught error to the HTTP response the API returns. */
module ApiErrors {

  datatype ErrorResponse = ErrorResponse(status: int, message: string)

  /** The error names the application raises on purpose. */
  const NotFound: string := "NotFoundError"
  const AlreadyExists: string := "AlreadyExistsError"
  const Validation: string := "ValidationError"

  /** Maps an error (its name and message) to a JSON response: missing entities are 404,
      duplicates and malformed input are 400, anything unclassified is an internal 500.
      The response always carries the error's own message. */
  function ApiError(name: string, message: string): (r: ErrorResponse)
    ensures r.message == message
    ensures r.status in {400, 404, 500}
    ensures r.status == 404 <==> name == NotFound
    ensures r.status == 400 <==> name == AlreadyExists || name == Validation
    ensures r.status == 500 <==> name !in {NotFound, AlreadyExists, Validation}
  {
    if name == NotFound then ErrorResponse(404, message)
    else if name == AlreadyExists then ErrorResponse(400, message)
    else if name == Validation then ErrorResponse(400, message)
    else ErrorResponse(500, message)
  }
}
