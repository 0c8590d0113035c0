/** `ExceptionHandling`: the global exception-handling middleware. A request
    whose downstream handler returns normally leaves the response alone; any
    exception becomes a JSON `ApiError` whose status and message depend on the
    exception's shape. */
module ExceptionHandling {
  import opened Base

  datatype IssueSeverity = Fatal | Error | Warning | Information

  datatype Issue = Issue(severity: Option<IssueSeverity>, diagnostics: Option<string>)

  /** An `OperationOutcome`; its `Issue` list is never null. */
  datatype OperationOutcome = OperationOutcome(issue: seq<Issue>)

  /** A thrown exception: the full name of its exact runtime type, its
      message, its inner exception, and, for a `FhirOperationException` or a
      subclass of it, the `Outcome` it carries. */
  datatype Exception = Exception(
    typeName: string,
    message: string,
    inner: Option<Exception>,
    outcome: Option<OperationOutcome>)

  const FhirOperationExceptionType: string := "Hl7.Fhir.Rest.FhirOperationException"
  const NullReferenceExceptionType: string := "System.NullReferenceException"
  const NullReferenceMessage: string := "Object reference not set to an instance of an object."

  const JsonContentType: string := "application/json"
  const InternalServerError: int := 500
  const BadRequest: int := 400

  /** The record written to the response body (its JSON text is not modelled).
      The `ApiError` class is not part of this model; its fields are named
      after its constructor's parameters by position, as `NotFoundError`
      passes a status description second and a message third. So the text the
      handler picks lands in `statusDescription` and the exception's type name
      in `message`. */
  datatype ApiError = ApiError(statusCode: int, statusDescription: Option<string>, message: string, requestPath: string)

  /** `ex.Message`, replaced by the inner exception's message when that one is
      not null, empty or white space. */
  function ReportedMessage(ex: Exception): (m: string)
    ensures ex.inner.Some? && !IsNullOrWhiteSpace(Some(ex.inner.value.message)) ==> m == ex.inner.value.message
    ensures (ex.inner.None? || IsNullOrWhiteSpace(Some(ex.inner.value.message))) ==> m == ex.message
  {
    if ex.inner.Some? && !IsNullOrWhiteSpace(Some(ex.inner.value.message)) then ex.inner.value.message
    else ex.message
  }

  /** `Issue.Where(i => i.Severity == Error).FirstOrDefault()?.Diagnostics`. */
  function FirstErrorDiagnostics(issues: seq<Issue>): (d: Option<string>)
    ensures (forall i :: 0 <= i < |issues| ==> issues[i].severity != Some(Error)) ==> d == None
    ensures (exists i :: 0 <= i < |issues| && issues[i].severity == Some(Error)) ==>
              exists i :: 0 <= i < |issues| && issues[i].severity == Some(Error) && d == issues[i].diagnostics
                          && forall j :: 0 <= j < i ==> issues[j].severity != Some(Error)
  {
    if issues == [] then None
    else if issues[0].severity == Some(Error) then issues[0].diagnostics
    else
      var d := FirstErrorDiagnostics(issues[1..]);
      assert forall i :: 1 <= i < |issues| ==> issues[i] == issues[1..][i - 1];
      if exists i :: 0 <= i < |issues| && issues[i].severity == Some(Error) then
        var k :| 0 <= k < |issues[1..]| && issues[1..][k].severity == Some(Error) && d == issues[1..][k].diagnostics
                 && forall j :: 0 <= j < k ==> issues[1..][j].severity != Some(Error);
        assert forall j :: 0 <= j < k + 1 ==> issues[j].severity != Some(Error) by {
          forall j | 0 <= j < k + 1 ensures issues[j].severity != Some(Error) {
            if j > 0 { assert issues[j] == issues[1..][j - 1]; }
          }
        }
        assert issues[k + 1].severity == Some(Error) && d == issues[k + 1].diagnostics;
        d
      else
        d
  }

  /** What the handler ends with: an error written to the response, or, for a
      `FhirOperationException` without an `Outcome`, the handler's own
      `NullReferenceException`. */
  datatype Handled = Written(error: ApiError) | HandlerThrew(ex: Exception)

  /** The status and message the handler picks for `ex`, as a function of the
      exception's shape. Only the exact type `FhirOperationException` is
      special: a subclass is handled like any other exception. */
  function Handle(ex: Exception, requestPath: string): (h: Handled)
    ensures ex.typeName != FhirOperationExceptionType ==>
              h == Written(ApiError(InternalServerError, Some(ReportedMessage(ex)), ex.typeName, requestPath))
    ensures ex.typeName == FhirOperationExceptionType && ex.outcome.Some? ==>
              h == Written(ApiError(BadRequest, FirstErrorDiagnostics(ex.outcome.value.issue), ex.typeName, requestPath))
    ensures h.HandlerThrew? <==> ex.typeName == FhirOperationExceptionType && ex.outcome.None?
  {
    if ex.typeName == FhirOperationExceptionType then
      match ex.outcome
      case None => HandlerThrew(Exception(NullReferenceExceptionType, NullReferenceMessage, None, None))
      case Some(outcome) =>
        Written(ApiError(BadRequest, FirstErrorDiagnostics(outcome.issue), ex.typeName, requestPath))
    else
      Written(ApiError(InternalServerError, Some(ReportedMessage(ex)), ex.typeName, requestPath))
  }

  /** The status is 400 exactly for a `FhirOperationException`, and 500 otherwise. */
  lemma StatusByExactType(ex: Exception, path: string)
    requires Handle(ex, path).Written?
    ensures Handle(ex, path).error.statusCode == (if ex.typeName == FhirOperationExceptionType then 400 else 500)
  {
  }

  /** For a `FhirOperationException`, the inner exception's message is never used. */
  lemma FhirMessageIgnoresInner(ex: Exception, inner: Option<Exception>, path: string)
    requires ex.typeName == FhirOperationExceptionType
    ensures Handle(ex.(inner := inner), path) == Handle(ex, path)
  {
  }

  /** The HTTP response the middleware writes to. */
  class HttpResponse {
    var contentType: Option<string>
    var statusCode: int
    var body: seq<ApiError>

    constructor (contentType: Option<string>, statusCode: int)
      ensures this.contentType == contentType && this.statusCode == statusCode && body == []
    {
      this.contentType := contentType;
      this.statusCode := statusCode;
      body := [];
    }
  }

  /** `HandleExceptionAsync`: sets the content type and status 500, picks the
      message, overrides status and message for a `FhirOperationException`,
      and writes the `ApiError`. It returns the exception it throws itself,
      if any. */
  method HandleException(response: HttpResponse, requestPath: string, ex: Exception)
    returns (thrown: Option<Exception>)
    modifies response
    ensures response.contentType == Some(JsonContentType)
    ensures match Handle(ex, requestPath)
            case Written(error) =>
              thrown == None && response.statusCode == error.statusCode
              && response.body == old(response.body) + [error]
            case HandlerThrew(e) =>
              thrown == Some(e) && response.statusCode == InternalServerError
              && response.body == old(response.body)
  {
    response.contentType := Some(JsonContentType);
    response.statusCode := InternalServerError;
    var errorMsg: Option<string> := Some(ex.message);
    if ex.inner.Some? && !IsNullOrWhiteSpace(Some(ex.inner.value.message)) {
      errorMsg := Some(ex.inner.value.message);
    }
    if ex.typeName == FhirOperationExceptionType {
      if ex.outcome.None? {
        return Some(Exception(NullReferenceExceptionType, NullReferenceMessage, None, None));
      }
      errorMsg := FirstErrorDiagnostics(ex.outcome.value.issue);
      response.statusCode := BadRequest;
    }
    var apiError := ApiError(response.statusCode, errorMsg, ex.typeName, requestPath);
    response.body := response.body + [apiError];
    thrown := None;
  }

  /** `InvokeAsync`: `downstream` is what the next delegate throws, if anything.
      Without an exception the response is untouched; with one, it is handled,
      and only an exception of the handler itself leaves the middleware. */
  method Invoke(response: HttpResponse, requestPath: string, downstream: Option<Exception>)
    returns (escaped: Option<Exception>)
    modifies response
    ensures downstream.None? ==>
              escaped == None && response.contentType == old(response.contentType)
              && response.statusCode == old(response.statusCode) && response.body == old(response.body)
    ensures downstream.Some? ==>
              response.contentType == Some(JsonContentType)
              && match Handle(downstream.value, requestPath)
                 case Written(error) =>
                   escaped == None && response.statusCode == error.statusCode
                   && response.body == old(response.body) + [error]
                 case HandlerThrew(e) =>
                   escaped == Some(e) && response.statusCode == InternalServerError
                   && response.body == old(response.body)
  {
    escaped := None;
    if downstream.Some? {
      escaped := HandleException(response, requestPath, downstream.value);
    }
  }
}
