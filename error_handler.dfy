/** `errorHandler`: the terminal middleware that turns any error reaching it
    into a `{success: false, message}` response, by a first-match table. */
module ErrorHandler {
  import opened Js

  /** The properties of the error object the handler reads; `None` stands
      for `undefined`. */
  datatype ErrorRecord = ErrorRecord(
    errorType: Option<string>,
    message: Option<string>,
    code: Option<string>,
    status: Option<int>,
    statusCode: Option<int>)

  const ParseFailed: string := "entity.parse.failed"
  const VerifyFailed: string := "entity.verify.failed"
  const UniqueViolation: string := "P2002"
  const RecordNotFound: string := "P2025"

  const MsgInvalidJson: string := "JSON inválido"
  const MsgInvalidData: string := "Dados inválidos na requisição"
  const MsgDuplicate: string := "Dados duplicados. Verifique os campos únicos"
  const MsgNotFound: string := "Registro não encontrado"
  const MsgInternal: string := "Erro interno do servidor"

  /** `error.status || error.statusCode || 500`: one of the error's own
      statuses or 500, and never 0. */
  function FallbackStatus(e: ErrorRecord): (r: int)
    ensures r != 0
    ensures r == 500 || Some(r) == e.status || Some(r) == e.statusCode
  {
    if Truthy(OfInt(e.status)) then e.status.value
    else if Truthy(OfInt(e.statusCode)) then e.statusCode.value
    else 500
  }

  /** The error matches one of the fixed rows of the table. */
  predicate Classified(e: ErrorRecord) {
    e.errorType == Some(ParseFailed) || e.message == Some(MsgInvalidJson)
    || e.errorType == Some(VerifyFailed)
    || e.code == Some(UniqueViolation) || e.code == Some(RecordNotFound)
  }

  /** The handler; `isProduction` is `process.env.NODE_ENV === 'production'`.
      Once headers are out the error is forwarded and nothing is written;
      otherwise a response without extra fields is always written. */
  function HandleError(e: ErrorRecord, headersSent: bool, isProduction: bool): (r: Outcome)
    ensures r == Forward <==> headersSent
    ensures r != Next
    ensures r.Respond? ==> r.extra == NoExtra
  {
    if headersSent then Forward
    else if e.errorType == Some(ParseFailed) || e.message == Some(MsgInvalidJson) then
      Respond(400, MsgInvalidJson, NoExtra)
    else if e.errorType == Some(VerifyFailed) then Respond(400, MsgInvalidData, NoExtra)
    else if e.code == Some(UniqueViolation) then Respond(400, MsgDuplicate, NoExtra)
    else if e.code == Some(RecordNotFound) then Respond(404, MsgNotFound, NoExtra)
    else
      var text := if isProduction then MsgInternal
                  else if Truthy(OfString(e.message)) then e.message.value
                  else MsgInternal;
      Respond(FallbackStatus(e), text, NoExtra)
  }

  /** A malformed-JSON error wins over every other row, whatever code or
      status it also carries. */
  lemma InvalidJsonWins(e: ErrorRecord, isProduction: bool)
    requires e.errorType == Some(ParseFailed) || e.message == Some(MsgInvalidJson)
    ensures HandleError(e, false, isProduction) == Respond(400, MsgInvalidJson, NoExtra)
  {
  }

  /** The error the JSON body parser's `verify` hook throws is answered with
      400 "JSON inválido". */
  lemma BodyParserErrorAnswered(isProduction: bool)
    ensures HandleError(ErrorRecord(Some(ParseFailed), Some(MsgInvalidJson), None, Some(400), None), false, isProduction)
         == Respond(400, MsgInvalidJson, NoExtra)
  {
  }

  /** A uniqueness violation that is not also a body error is answered with
      400 and the fixed duplicate-data message, whatever its own message
      text, status or environment. */
  lemma UniqueViolationAnswered(e: ErrorRecord, isProduction: bool)
    requires e.code == Some(UniqueViolation) && !(e.errorType in {Some(ParseFailed), Some(VerifyFailed)})
    requires e.message != Some(MsgInvalidJson)
    ensures HandleError(e, false, isProduction) == Respond(400, MsgDuplicate, NoExtra)
  {
  }

  /** A body-verification error that is not also a malformed-JSON error is
      answered with 400 and the invalid-data message, whatever its code,
      status or environment. */
  lemma VerifyFailedAnswered(e: ErrorRecord, isProduction: bool)
    requires e.errorType == Some(VerifyFailed) && e.message != Some(MsgInvalidJson)
    ensures HandleError(e, false, isProduction) == Respond(400, MsgInvalidData, NoExtra)
  {
  }

  /** A record-not-found error that matches no earlier row is answered with
      404 and the not-found message, whatever its own message, status or
      environment. */
  lemma RecordNotFoundAnswered(e: ErrorRecord, isProduction: bool)
    requires e.code == Some(RecordNotFound) && !(e.errorType in {Some(ParseFailed), Some(VerifyFailed)})
    requires e.message != Some(MsgInvalidJson)
    ensures HandleError(e, false, isProduction) == Respond(404, MsgNotFound, NoExtra)
  {
  }

  /** For the fixed rows the answer does not depend on the environment. */
  lemma ClassifiedIgnoresEnvironment(e: ErrorRecord)
    requires Classified(e)
    ensures HandleError(e, false, true) == HandleError(e, false, false)
  {
  }

  /** The status written is a table status, the error's own truthy status or
      statusCode (in that order of preference), or 500; never 0. */
  lemma StatusChoice(e: ErrorRecord, isProduction: bool)
    ensures var r := HandleError(e, false, isProduction);
      && (Classified(e) ==> r.status in {400, 404})
      && (!Classified(e) && Truthy(OfInt(e.status)) ==> r.status == e.status.value)
      && (!Classified(e) && !Truthy(OfInt(e.status)) && Truthy(OfInt(e.statusCode)) ==> r.status == e.statusCode.value)
      && (!Classified(e) && !Truthy(OfInt(e.status)) && !Truthy(OfInt(e.statusCode)) ==> r.status == 500)
      && r.status != 0
  {
  }

  /** In production no error text reaches the client: the message is always
      one of the handler's fixed messages, even for an error with an
      explicit status. */
  lemma ProductionHidesErrorText(e: ErrorRecord)
    ensures HandleError(e, false, true).message
      in {MsgInvalidJson, MsgInvalidData, MsgDuplicate, MsgNotFound, MsgInternal}
    ensures !Classified(e) ==> HandleError(e, false, true).message == MsgInternal
  {
  }

  /** Outside production an unclassified error's own non-empty message is
      sent; an empty or missing one is replaced by the generic message. */
  lemma DevelopmentShowsErrorText(e: ErrorRecord)
    requires !Classified(e)
    ensures HandleError(e, false, false).message
      == if e.message.Some? && e.message.value != "" then e.message.value else MsgInternal
  {
  }
}
