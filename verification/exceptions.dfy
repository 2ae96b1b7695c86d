/** The exceptions the core raises and CustomExceptionHandler, which turns
    each handled kind into an HTTP status and a {status, message} body. */
module Exceptions {
  import opened Wrappers
  import opened Http

  /** Each exception kind with the message it carries. */
  datatype Exception =
    | MethodArgumentNotValidException(fieldErrorMessage: Option<string>)
      // a request body failed a validation annotation; the default message
      // of its first field error, when there is a field error
    | ValidationException(message: string)
    | AuthenticationException(message: string)
    | AuthorisationException(message: string)
    | NotFoundException(message: string)
    | BadRequestException(message: string)
    | OtherException(message: string)
      // anything else that reaches the handler

  /** The JSON body the handler writes. */
  datatype CustomErrorResponse = CustomErrorResponse(status: int, message: string)

  /** The handler's whole answer: the HTTP status and the body. */
  datatype ErrorReply = ErrorReply(httpStatus: int, body: CustomErrorResponse)

  const MISSING_FIELD: string := "Missing field"
  const INTERNAL_ERROR_MESSAGE: string := "Internal Server Error"

  /** The reply of one handler: the body repeats the HTTP status. */
  function Reply(status: int, message: string): ErrorReply {
    ErrorReply(status, CustomErrorResponse(status, message))
  }

  /** The handler that CustomExceptionHandler selects for `e`, and its reply.
      BadRequestException's class is not part of this model, so which
      handler catches it is left open: None. */
  function Handle(e: Exception): (r: Option<ErrorReply>)
    ensures r.None? <==> e.BadRequestException?
    ensures r.Some? ==> r.value.body.status == r.value.httpStatus
    ensures e.MethodArgumentNotValidException? ==>
      r == Some(Reply(BAD_REQUEST,
        if e.fieldErrorMessage.Some? then e.fieldErrorMessage.value else MISSING_FIELD))
    ensures e.ValidationException? ==> r == Some(Reply(BAD_REQUEST, e.message))
    ensures e.AuthenticationException? ==> r == Some(Reply(UNAUTHORIZED, e.message))
    ensures e.AuthorisationException? ==> r == Some(Reply(FORBIDDEN, e.message))
    ensures e.NotFoundException? ==> r == Some(Reply(NOT_FOUND, e.message))
    ensures e.OtherException? ==> r == Some(Reply(INTERNAL_SERVER_ERROR, INTERNAL_ERROR_MESSAGE))
  {
    match e
    case MethodArgumentNotValidException(fieldError) =>
      Some(Reply(BAD_REQUEST, match fieldError case Some(m) => m case None => MISSING_FIELD))
    case ValidationException(m) => Some(Reply(BAD_REQUEST, m))
    case AuthenticationException(m) => Some(Reply(UNAUTHORIZED, m))
    case AuthorisationException(m) => Some(Reply(FORBIDDEN, m))
    case NotFoundException(m) => Some(Reply(NOT_FOUND, m))
    case BadRequestException(_) => None
    case OtherException(_) => Some(Reply(INTERNAL_SERVER_ERROR, INTERNAL_ERROR_MESSAGE))
  }

  /** The status alone tells the client which kind of failure occurred:
      401, 403 and 404 each come from exactly one kind, 400 from the two
      validation kinds, and 500 only from an unclassified exception. */
  lemma StatusIdentifiesKind(e: Exception)
    requires Handle(e).Some?
    ensures var s := Handle(e).value.httpStatus;
      && (s == BAD_REQUEST <==> e.MethodArgumentNotValidException? || e.ValidationException?)
      && (s == UNAUTHORIZED <==> e.AuthenticationException?)
      && (s == FORBIDDEN <==> e.AuthorisationException?)
      && (s == NOT_FOUND <==> e.NotFoundException?)
      && (s == INTERNAL_SERVER_ERROR <==> e.OtherException?)
  {
  }

  /** The message of an unclassified exception never reaches the client:
      two such exceptions get the same reply whatever they carry. */
  lemma UnclassifiedMessageNotExposed(m1: string, m2: string)
    ensures Handle(OtherException(m1)) == Handle(OtherException(m2))
  {
  }
}
