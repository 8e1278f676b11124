/** `parseJSONError`: builds a `RequestError` from a failed response's
    status code and body, taking the most specific message available. */
module RequestErrors {
  import opened Wrappers

  /** The response body as JSON parsing sees it: not JSON at all, or a value
      whose `message` and `error` properties are strings or not. */
  datatype Body = Unparsable | Json(message: Option<string>, error: Option<string>)

  /** The error value: its `name`, the response's `statusCode` and a `message`. */
  datatype RequestError = RequestError(name: string, statusCode: int, message: string)

  /** The name every error built here carries: a request-level error. */
  const RequestErrorName := "RequestError"

  /** The message used when a status code has no known reason phrase. */
  const GenericMessage := "Unknown Error"

  /** The reason phrases of the client and server error status codes, as
      section 15 of RFC 9110 defines them: only a 4xx or 5xx code has one,
      and it is never empty. */
  function ReasonPhrase(status: int): (r: Option<string>)
    ensures r.Some? ==> 400 <= status < 600 && r.value != ""
    ensures status == 400 ==> r == Some("Bad Request")
  {
    match status
    case 400 => Some("Bad Request")
    case 401 => Some("Unauthorized")
    case 402 => Some("Payment Required")
    case 403 => Some("Forbidden")
    case 404 => Some("Not Found")
    case 405 => Some("Method Not Allowed")
    case 406 => Some("Not Acceptable")
    case 407 => Some("Proxy Authentication Required")
    case 408 => Some("Request Timeout")
    case 409 => Some("Conflict")
    case 410 => Some("Gone")
    case 411 => Some("Length Required")
    case 412 => Some("Precondition Failed")
    case 413 => Some("Content Too Large")
    case 414 => Some("URI Too Long")
    case 415 => Some("Unsupported Media Type")
    case 416 => Some("Range Not Satisfiable")
    case 417 => Some("Expectation Failed")
    case 421 => Some("Misdirected Request")
    case 422 => Some("Unprocessable Content")
    case 426 => Some("Upgrade Required")
    case 500 => Some("Internal Server Error")
    case 501 => Some("Not Implemented")
    case 502 => Some("Bad Gateway")
    case 503 => Some("Service Unavailable")
    case 504 => Some("Gateway Timeout")
    case 505 => Some("HTTP Version Not Supported")
    case _ => None
  }

  /** The message derived from the status code alone. */
  function DefaultMessage(status: int): (r: string)
    ensures r != ""
    ensures ReasonPhrase(status).Some? ==> r == ReasonPhrase(status).value
  {
    ReasonPhrase(status).GetOr(GenericMessage)
  }

  /** No candidate before index `i` is present. */
  predicate NoneBefore(candidates: seq<Option<string>>, i: nat)
    requires i <= |candidates|
  {
    forall j :: 0 <= j < i ==> candidates[j].None?
  }

  /** The first present candidate, else `fallback`. */
  function FirstPresent(candidates: seq<Option<string>>, fallback: string): (r: string)
    ensures forall i :: 0 <= i < |candidates| && candidates[i].Some? && NoneBefore(candidates, i) ==> r == candidates[i].value
    ensures NoneBefore(candidates, |candidates|) ==> r == fallback
  {
    if candidates == [] then fallback
    else if candidates[0].Some? then candidates[0].value
    else
      assert forall i :: 1 <= i <= |candidates| && NoneBefore(candidates, i) ==> NoneBefore(candidates[1..], i - 1);
      FirstPresent(candidates[1..], fallback)
  }

  /** The candidate messages of a body, most specific first. */
  function Candidates(body: Body): seq<Option<string>> {
    match body
    case Unparsable => []
    case Json(message, error) => [message, error]
  }

  /** `parseJSONError(context, {statusCode, body})`. */
  function ParseJSONError(statusCode: int, body: Body): (e: RequestError)
    ensures e.statusCode == statusCode && e.name == RequestErrorName
    ensures body.Json? && body.message.Some? ==> e.message == body.message.value
    ensures body.Json? && body.message.None? && body.error.Some? ==> e.message == body.error.value
    ensures body.Unparsable? || (body.message.None? && body.error.None?) ==> e.message == DefaultMessage(statusCode)
  {
    var candidates := Candidates(body);
    assert body.Json? && body.message.None? ==> NoneBefore(candidates, 1);
    RequestError(RequestErrorName, statusCode, FirstPresent(candidates, DefaultMessage(statusCode)))
  }

  /** A message found in the body does not depend on the status code. */
  lemma MessageFromBodyIgnoresStatus(s1: int, s2: int, body: Body)
    requires body.Json? && (body.message.Some? || body.error.Some?)
    ensures ParseJSONError(s1, body).message == ParseJSONError(s2, body).message
  {
  }

  /** Without a message in the body, a known status code yields its reason phrase. */
  lemma ReasonPhraseFallback(status: int, body: Body)
    requires body.Unparsable? || (body.message.None? && body.error.None?)
    requires ReasonPhrase(status).Some?
    ensures ParseJSONError(status, body).message == ReasonPhrase(status).value
  {
  }
}
