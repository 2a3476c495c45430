/**
 * `RequestHandler.send_request`: preparation of the headers and the body, the arguments handed to
 * the HTTP session, and the dictionary built from the reply or from a request error. The session,
 * the clock and the JSON decoder are parameters.
 */
module Request {
  import opened Optional
  import opened PyStr
  import opened Json

  type Headers = map<string, string>

  /** Methods for which a Content-Type is filled in. */
  const BodyMethods: seq<string> := ["POST", "PUT", "PATCH"]

  const DefaultContentType: string := "application/json"

  /** The body of a message: absent, the decoded JSON value, or the raw text. */
  datatype Payload = NoPayload | Decoded(value: Json) | Raw(text: string)

  /** The result of a step that may raise an exception `send_request` does not catch. */
  datatype Outcome<T> = Done(value: T) | Raised(message: string)

  /** The dictionary `send_request` returns: built from a reply, or from a request exception. */
  datatype ResponseRecord =
    | Received(statusCode: int, headers: Headers, body: string, responseTime: real, size: nat,
               url: string, httpMethod: string, reason: string)
    | RequestError(error: string, statusCode: int, responseTime: real, body: string)

  /** The keyword arguments of `session.request`. */
  datatype Call = Call(httpMethod: string, url: string, headers: Headers, json: Option<Json>, data: Payload,
                       timeout: nat, verify: bool)

  /** What the session gives back: a response, or a `requests.exceptions.RequestException`. */
  datatype Reply =
    | Response(statusCode: int, headers: Headers, text: string, contentLength: nat, finalUrl: string, reason: string)
    | RequestException(message: string)

  /** Python truthiness of an optional string. */
  predicate Truthy(s: Option<string>)
  {
    s.Some? && s.value != []
  }

  /**
   * The request headers: a copy of the caller's (or none), with Content-Type set to `contentType`
   * when the body is not empty, the method is POST, PUT or PATCH and the exact key is missing.
   */
  function PrepareHeaders(headers: Option<Headers>, httpMethod: string, body: Option<string>, contentType: string): Headers
  {
    var copy := if headers.Some? then headers.value else map[];
    if Truthy(body) && httpMethod in BodyMethods && "Content-Type" !in copy then copy["Content-Type" := contentType]
    else copy
  }

  /**
   * The caller's headers all survive with their values (Content-Type is never overwritten), and
   * the only key that may be added is Content-Type, set to `contentType`, exactly under the
   * three conditions.
   */
  lemma PrepareHeadersSpec(headers: Option<Headers>, httpMethod: string, body: Option<string>, contentType: string)
    ensures var base := if headers.Some? then headers.value else map[];
      var r := PrepareHeaders(headers, httpMethod, body, contentType);
      && (forall k :: k in base ==> k in r && r[k] == base[k])
      && (forall k :: k in r && k !in base ==> k == "Content-Type" && r[k] == contentType)
      && ("Content-Type" in r <==> "Content-Type" in base || (Truthy(body) && httpMethod in BodyMethods))
  {
  }

  /**
   * The body to send (`data`): nothing for an absent or blank body; for the JSON content type the
   * decoded value, or the raw text when it does not decode; for any other type the raw text. The
   * JSON text `null` decodes to Python's `None`, which is the same as no body. A decoder failure
   * other than a decoding error escapes.
   */
  function ChoosePayload(body: Option<string>, contentType: string, loads: string -> Loaded): Outcome<Payload>
  {
    if !Truthy(body) || Strip(body.value) == [] then Done(NoPayload)
    else if contentType == DefaultContentType then
      match loads(body.value)
      case Parsed(v) => if v == JNull then Done(NoPayload) else Done(Decoded(v))
      case LoadFailed(DecodeError(_)) => Done(Raw(body.value))
      case LoadFailed(OtherFailure(m)) => Raised(m)
    else Done(Raw(body.value))
  }

  /**
   * A whitespace-only body is sent as no body at all, although it still counts as a body for the
   * Content-Type default; a body with text is dropped only when it is JSON `null` sent with the
   * JSON content type.
   */
  lemma ChoosePayloadBlank(body: Option<string>, httpMethod: string, contentType: string, loads: string -> Loaded)
    ensures Truthy(body) && AllSpace(body.value) ==> ChoosePayload(body, contentType, loads) == Done(NoPayload)
    ensures Truthy(body) && httpMethod in BodyMethods ==> "Content-Type" in PrepareHeaders(None, httpMethod, body, contentType)
    ensures ChoosePayload(body, contentType, loads) == Done(NoPayload) <==>
      !Truthy(body) || AllSpace(body.value) || (contentType == DefaultContentType && loads(body.value) == Parsed(JNull))
  {
    if Truthy(body) {
      StripTrims(body.value);
    }
  }

  /**
   * Only the exact JSON content type decodes; the raw text is sent otherwise or on a decoding
   * error, and any other decoder failure escapes.
   */
  lemma ChoosePayloadByType(body: string, contentType: string, loads: string -> Loaded)
    requires !AllSpace(body)
    ensures contentType != DefaultContentType ==> ChoosePayload(Some(body), contentType, loads) == Done(Raw(body))
    ensures contentType == DefaultContentType && loads(body).Parsed? && loads(body).value != JNull ==>
      ChoosePayload(Some(body), contentType, loads) == Done(Decoded(loads(body).value))
    ensures contentType == DefaultContentType && loads(body) == Parsed(JNull) ==>
      ChoosePayload(Some(body), contentType, loads) == Done(NoPayload)
    ensures contentType == DefaultContentType && loads(body).LoadFailed? && loads(body).error.DecodeError? ==>
      ChoosePayload(Some(body), contentType, loads) == Done(Raw(body))
    ensures contentType == DefaultContentType && loads(body).LoadFailed? && loads(body).error.OtherFailure? ==>
      ChoosePayload(Some(body), contentType, loads) == Raised(loads(body).error.message)
  {
    StripTrims(body);
  }

  /** `json=data if isinstance(data, dict) else None` and `data=data if not isinstance(data, dict) else None`. */
  function SendArgs(p: Payload): (args: (Option<Json>, Payload))
  {
    if p.Decoded? && IsDict(p.value) then (Some(p.value), NoPayload) else (None, p)
  }

  /** Exactly one of the two arguments carries the payload: `json=` when it is a dictionary. */
  lemma SendArgsSplit(p: Payload)
    ensures var (json, data) := SendArgs(p);
      && (json.Some? <==> p.Decoded? && IsDict(p.value))
      && (json.Some? ==> json.value == p.value && data == NoPayload)
      && (json.None? ==> data == p)
  {
  }

  const ErrorBodyPrefix: string := "Request Error: "

  /** The dictionary returned for a request exception: no HTTP status, no time, the message in the body. */
  function ErrorRecord(message: string): (r: ResponseRecord)
    ensures r.RequestError? && r.error == message && r.statusCode == 0 && r.responseTime == 0.0
    ensures r.body == ErrorBodyPrefix + r.error
  {
    RequestError(message, 0, 0.0, ErrorBodyPrefix + message)
  }

  /**
   * `send_request`: headers and payload are prepared, the session is called with a 30 second
   * timeout, and its reply becomes the record; `elapsedMs` is the measured time. A request
   * exception becomes the error record; any other exception escapes.
   */
  function SendRequest(httpMethod: string, url: string, headers: Option<Headers>, body: Option<string>, contentType: string,
                       verify: bool, loads: string -> Loaded, session: Call -> Reply, elapsedMs: real): Outcome<ResponseRecord>
  {
    var h := PrepareHeaders(headers, httpMethod, body, contentType);
    match ChoosePayload(body, contentType, loads)
    case Raised(m) => Raised(m)
    case Done(p) =>
      var (json, data) := SendArgs(p);
      match session(Call(httpMethod, url, h, json, data, 30, verify))
      case Response(status, hs, text, size, finalUrl, reason) =>
        Done(Received(status, hs, text, elapsedMs, size, finalUrl, httpMethod, reason))
      case RequestException(m) => Done(ErrorRecord(m))
  }

  /**
   * The session sees the prepared headers and the payload split as above; its reply's fields are
   * copied, with the httpMethod of the request; a request exception gives status 0, time 0 and the
   * message twice.
   */
  lemma SendRequestSpec(httpMethod: string, url: string, headers: Option<Headers>, body: Option<string>, contentType: string,
                        verify: bool, loads: string -> Loaded, session: Call -> Reply, elapsedMs: real)
    requires ChoosePayload(body, contentType, loads).Done?
    ensures var p := ChoosePayload(body, contentType, loads).value;
      var call := Call(httpMethod, url, PrepareHeaders(headers, httpMethod, body, contentType), SendArgs(p).0, SendArgs(p).1, 30, verify);
      var out := SendRequest(httpMethod, url, headers, body, contentType, verify, loads, session, elapsedMs);
      && out.Done?
      && (session(call).Response? ==>
            && out.value.Received? && out.value.statusCode == session(call).statusCode
            && out.value.body == session(call).text && out.value.size == session(call).contentLength
            && out.value.httpMethod == httpMethod && out.value.responseTime == elapsedMs)
      && (session(call).RequestException? ==>
            && out.value == ErrorRecord(session(call).message)
            && out.value.statusCode == 0 && out.value.error == session(call).message)
  {
  }
}
