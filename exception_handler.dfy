/**
 * `BookControllerExceptionHandler` (controller/BookControllerExceptionHandler.java):
 * turns the exception that ends a request into an HTTP status and an
 * `ErrorResponseDto` body.
 */
module ExceptionHandler {
  import opened Common

  /** `ErrorResponseDto(code, title, detail)`. */
  datatype ErrorResponseDto = ErrorResponseDto(code: int, title: string, detail: string)

  /** A `ResponseEntity<ErrorResponseDto>`: the status and the body. */
  datatype ErrorReply = ErrorReply(status: int, body: ErrorResponseDto)

  /** `handleBookNotFoundException`: 404, tagged BOOK_NOT_FOUND, the message as detail. */
  function HandleBookNotFoundException(message: string): (r: ErrorReply)
    ensures r.status == HTTP_NOT_FOUND && r.body.code == r.status
    ensures r.body.title == "BOOK_NOT_FOUND" && r.body.detail == message
  {
    ErrorReply(HTTP_NOT_FOUND, ErrorResponseDto(HTTP_NOT_FOUND, "BOOK_NOT_FOUND", message))
  }

  /** `handleAllExceptions`: 500, tagged INTERNAL_SERVER_ERROR, the message as detail. */
  function HandleAllExceptions(message: string): (r: ErrorReply)
    ensures r.status == HTTP_INTERNAL_SERVER_ERROR && r.body.code == r.status
    ensures r.body.title == "INTERNAL_SERVER_ERROR" && r.body.detail == message
  {
    ErrorReply(HTTP_INTERNAL_SERVER_ERROR, ErrorResponseDto(HTTP_INTERNAL_SERVER_ERROR, "INTERNAL_SERVER_ERROR", message))
  }

  /**
   * The handler that answers an error: the `BookNotFoundException` handler for
   * NotFound, being the more specific one, and the catch-all for the rest.
   */
  function Handle(e: Error): (r: ErrorReply)
    ensures r.status == HTTP_NOT_FOUND <==> e.NotFound?
    ensures r.status == HTTP_INTERNAL_SERVER_ERROR <==> e.Unexpected?
    ensures r.body.title == (if e.NotFound? then "BOOK_NOT_FOUND" else "INTERNAL_SERVER_ERROR")
    ensures r.body.code == r.status && r.body.detail == e.message
  {
    match e
    case NotFound(message) => HandleBookNotFoundException(message)
    case Unexpected(message) => HandleAllExceptions(message)
  }
}
