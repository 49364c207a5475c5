/** The backend's error handler: it turns an error into an HTTP status and a JSON
    body `{ error, message }`. */
module ErrorMiddleware {
  import opened JsValues

  /** The properties of the thrown error that the handler reads. */
  datatype ErrorValue = ErrorValue(name: Value, code: Value, message: Value)

  /** The JSON body; `message` is `Absent` when the error had none (omitted from JSON). */
  datatype Body = Body(error: string, message: Value)

  datatype Response = Response(status: int, body: Body)

  const BadRequest := 400
  const Conflict := 409
  const InternalServerError := 500

  /** MongoDB's duplicate-key error code. */
  const DuplicateKey := 11000

  /** The fixed messages of the conflict and server-error responses. */
  const DuplicateMessage := "Duplicate field error"
  const UnexpectedMessage := "An unexpected error occurred"

  /** The reason phrases of the statuses used (section 15 of RFC 9110). */
  const ReasonPhrases: map<int, string> :=
    map[BadRequest := "Bad Request", Conflict := "Conflict", InternalServerError := "Internal Server Error"]

  /** Any error with a truthy `name` is reported as a bad request carrying its
      message; otherwise a duplicate key is a conflict; anything else is a server
      error. Only the bad-request case passes the error's own message on. */
  function Respond(e: ErrorValue): (resp: Response)
    ensures resp.status in ReasonPhrases && resp.body.error == ReasonPhrases[resp.status]
    ensures resp.status == BadRequest <==> Truthy(e.name)
    ensures resp.status == Conflict <==> !Truthy(e.name) && e.code == Num(DuplicateKey)
    ensures resp.status == InternalServerError <==> !Truthy(e.name) && e.code != Num(DuplicateKey)
    ensures resp.status == BadRequest ==> resp.body.message == e.message
    ensures resp.status == Conflict ==> resp.body.message == Str(DuplicateMessage)
    ensures resp.status == InternalServerError ==> resp.body.message == Str(UnexpectedMessage)
  {
    if Truthy(e.name) then
      Response(BadRequest, Body(ReasonPhrases[BadRequest], e.message))
    else if e.code == Num(DuplicateKey) then
      Response(Conflict, Body(ReasonPhrases[Conflict], Str(DuplicateMessage)))
    else
      Response(InternalServerError, Body(ReasonPhrases[InternalServerError], Str(UnexpectedMessage)))
  }

  /** A named error is a bad request whatever its code: the name test comes first. */
  lemma NameTakesPrecedence(e: ErrorValue, code: Value)
    requires Truthy(e.name)
    ensures Respond(e.(code := code)) == Respond(e)
    ensures Respond(e).status == BadRequest
  {
  }

  /** Conflicts and server errors never reveal the error's own message. */
  lemma MessageHiddenUnlessBadRequest(e: ErrorValue, message: Value)
    requires Respond(e).status != BadRequest
    ensures Respond(e.(message := message)) == Respond(e)
  {
  }

  /** The code is compared strictly: the string "11000" is not a duplicate key. */
  lemma CodeComparedStrictly(e: ErrorValue)
    requires !Truthy(e.name) && e.code == Str("11000")
    ensures Respond(e).status == InternalServerError
  {
  }
}
