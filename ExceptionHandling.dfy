/** The controller advice that turns the core's exceptions into HTTP responses
    (exceptions/ControllerExceptionHandler.java). */
module ExceptionHandling {
  import opened Wrappers
  import opened Errors

  /** A status and a body; a null body (None) is an empty response body. */
  datatype Response = Response(status: int, body: Option<string>)

  const NotFoundStatus: int := 404
  const BadRequestStatus: int := 400

  /** The fixed body of every 404 this advice produces. */
  const NotFoundBody: string := "Book not found"

  /** The classes listed on `handleNotFound`. */
  predicate IsNotFoundKind(kind: ErrorKind) {
    kind == BookNotFound || kind == UserNotFound
  }

  /** The classes listed on `handleBadRequest`. */
  predicate IsBadRequestKind(kind: ErrorKind) {
    kind == BookIdMismatch || kind == UserIdMismatch || kind == ConstraintViolation || kind == DataIntegrityViolation
  }

  /** The classes the inherited ResponseEntityExceptionHandler.handleException answers, among the
      kinds of this model: MethodArgumentNotValidException, raised for an invalid @Valid body. */
  predicate IsInheritedKind(kind: ErrorKind) {
    kind == InvalidBody
  }

  /** `handleNotFound`: 404 with the fixed body, whatever the exception says. */
  function HandleNotFound(message: string): (r: Response)
    ensures r.status == NotFoundStatus && r.body == Some(NotFoundBody)
  {
    Response(NotFoundStatus, Some(NotFoundBody))
  }

  /** `handleBadRequest`: 400 with the exception's own message as the body. */
  function HandleBadRequest(message: string): (r: Response)
    ensures r.status == BadRequestStatus && r.body == Some(message)
  {
    Response(BadRequestStatus, Some(message))
  }

  /** The inherited `handleMethodArgumentNotValid`: 400 with a null body. */
  function HandleMethodArgumentNotValid(): (r: Response)
    ensures r.status == BadRequestStatus && r.body.None?
  {
    Response(BadRequestStatus, None)
  }

  /** The advice as a whole: the declared handler whose list holds the exception's class answers,
      an invalid body is answered by the inherited handler, and any other exception gets no
      response from this advice (None). */
  function Handle(kind: ErrorKind, message: string): (r: Option<Response>)
    ensures IsNotFoundKind(kind) ==> r == Some(Response(404, Some("Book not found")))
    ensures IsBadRequestKind(kind) ==> r == Some(Response(400, Some(message)))
    ensures IsInheritedKind(kind) ==> r == Some(Response(400, None))
    ensures r.None? <==> !IsNotFoundKind(kind) && !IsBadRequestKind(kind) && !IsInheritedKind(kind)
  {
    if IsNotFoundKind(kind) then Some(HandleNotFound(message))
    else if IsBadRequestKind(kind) then Some(HandleBadRequest(message))
    else if IsInheritedKind(kind) then Some(HandleMethodArgumentNotValid())
    else None
  }

  /** The three lists are disjoint, so no exception is claimed by two handlers. */
  lemma ListsAreDisjoint(kind: ErrorKind)
    ensures !(IsNotFoundKind(kind) && IsBadRequestKind(kind))
    ensures !(IsNotFoundKind(kind) && IsInheritedKind(kind))
    ensures !(IsBadRequestKind(kind) && IsInheritedKind(kind))
  {
  }

  /** A missing user is answered with the book message, an invalid body gets 400 without a body,
      and an already-owned book, a @NotNull violation raised by bean validation when a row is
      written, a null dereference, an illegal argument and an index out of bounds reach no
      handler of this advice. */
  lemma UnlistedKinds(message: string)
    ensures Handle(UserNotFound, message) == Some(Response(404, Some("Book not found")))
    ensures Handle(InvalidBody, message) == Some(Response(400, None))
    ensures Handle(BookAlreadyOwned, message).None?
    ensures Handle(NotNullViolation, message).None?
    ensures Handle(NullPointer, message).None?
    ensures Handle(IllegalArgument, message).None?
    ensures Handle(IndexOutOfBounds, message).None?
  {
  }
}
