/**
 * `send_data`: the JSON body posted to the controller and the way the
 * outcome of the POST is told apart. The HTTP client itself is outside the
 * model; what it returned is a parameter.
 */
module Delivery {
  import opened Json

  /** The body: a map from key to integer, serialized as a JSON object. */
  type Body = map<string, i32>

  /** What is posted: `POST {url}` with `Authorization: Bearer {token}`. */
  datatype Request = Request(url: string, token: string, body: Body)

  /** What the HTTP client came back with: the client could not be built,
      the request could not be sent (connection refused, timeout, DNS), or a
      response with a status code and its text. */
  datatype HttpResult =
    | ClientBuildFailed(error: string)
    | SendFailed(error: string)
    | Response(status: int, text: string)

  /** How a delivery ended. */
  datatype Outcome =
    | Delivered
    | ServerRejected
    | Unknown(status: int, text: string)
    | TransportFailed(error: string)

  /** The body, built by inserting `id` and then `temp` into an empty map.
      The humidity is not sent. */
  function MakeBody(temp: TemperatureReading, probeId: i32): (b: Body)
    ensures b.Keys == {"id", "temp"}
    ensures b["id"] == probeId && b["temp"] == temp.temperature
    ensures "humidity" !in b
  {
    var empty: Body := map[];
    empty["id" := probeId]["temp" := temp.temperature]
  }

  function MakeRequest(temp: TemperatureReading, probeId: i32, url: string, token: string): (q: Request)
    ensures q.url == url && q.token == token
    ensures q.body.Keys == {"id", "temp"}
    ensures q.body["id"] == probeId && q.body["temp"] == temp.temperature
  {
    Request(url, token, MakeBody(temp, probeId))
  }

  /** `StatusCode::is_success`: the 2xx class (section 15.3 of RFC 9110). */
  predicate IsSuccess(status: int) {
    200 <= status <= 299
  }

  /** `StatusCode::is_server_error`: the 5xx class (section 15.6 of RFC 9110). */
  predicate IsServerError(status: int) {
    500 <= status <= 599
  }

  /** The outcome of a response: success first, then server error, and
      everything else reported with its status and text. */
  function Classify(status: int, text: string): (o: Outcome)
    ensures o.Delivered? <==> IsSuccess(status)
    ensures o.ServerRejected? <==> IsServerError(status)
    ensures o.Unknown? <==> !IsSuccess(status) && !IsServerError(status)
    ensures o.Unknown? ==> o.status == status && o.text == text
    ensures !o.TransportFailed?
  {
    if IsSuccess(status) then Delivered
    else if IsServerError(status) then ServerRejected
    else Unknown(status, text)
  }

  /** `send_data` given what the client returned for the request. */
  function Deliver(result: HttpResult): (o: Outcome)
    ensures o.TransportFailed? <==> !result.Response?
    ensures o.TransportFailed? ==> o.error == result.error
    ensures result.Response? ==> o == Classify(result.status, result.text)
  {
    match result
    case ClientBuildFailed(e) => TransportFailed(e)
    case SendFailed(e) => TransportFailed(e)
    case Response(status, text) => Classify(status, text)
  }

  /** The three classes of status code cover every code and never overlap. */
  lemma {:induction false} StatusClassesPartition(status: int, text: string)
    ensures IsSuccess(status) || IsServerError(status) || Classify(status, text).Unknown?
    ensures !(IsSuccess(status) && IsServerError(status))
    ensures Classify(status, text).Unknown? ==> !IsSuccess(status) && !IsServerError(status)
  {
  }

  /** The humidity has no bearing on what is posted. */
  lemma {:induction false} BodyIgnoresHumidity(a: TemperatureReading, b: TemperatureReading, probeId: i32)
    requires a.temperature == b.temperature
    ensures MakeBody(a, probeId) == MakeBody(b, probeId)
  {
    var x := MakeBody(a, probeId);
    var y := MakeBody(b, probeId);
    assert x.Keys == y.Keys;
    assert forall k | k in x :: x[k] == y[k];
  }

  /** The body is the two-entry map `{"id": probeId, "temp": temperature}`. */
  lemma {:induction false} BodyIsIdAndTemp(temp: TemperatureReading, probeId: i32)
    ensures MakeBody(temp, probeId) == map["id" := probeId, "temp" := temp.temperature]
  {
    var x := MakeBody(temp, probeId);
    var y := map["id" := probeId, "temp" := temp.temperature];
    assert x.Keys == y.Keys;
  }

  lemma {:induction false} OkIsDelivered(text: string)
    ensures Deliver(Response(200, text)) == Delivered
  {
  }

  lemma {:induction false} UnavailableIsServerRejected(text: string)
    ensures Deliver(Response(503, text)) == ServerRejected
    ensures Deliver(Response(500, text)) == ServerRejected
  {
  }

  lemma {:induction false} NotFoundIsUnknown(text: string)
    ensures Deliver(Response(404, text)) == Unknown(404, text)
  {
  }

  lemma {:induction false} ConnectionErrorIsTransportFailed(e: string)
    ensures Deliver(SendFailed(e)) == TransportFailed(e)
    ensures Deliver(ClientBuildFailed(e)) == TransportFailed(e)
  {
  }
}
