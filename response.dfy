/** `dnd.server.api.Response` (what an endpoint returns) and
    `dnd.server.api.HttpResponse` (what the router sends), with their JSON
    shapes as trees. How Gson renders a tree as text is not modelled. */
module Responses {
  import opened Wrappers

  /** The Java objects endpoints put in a response's `data`: strings, numbers,
      booleans, `null`, `Map`s and `List`s. */
  datatype Value =
    | VNull
    | VStr(s: string)
    | VInt(i: int)
    | VBool(b: bool)
    | VObj(fields: map<string, Value>)
    | VList(items: seq<Value>)

  /** A response: a success carries a message and data, an error carries the
      text of its `{"message": ...}` object. */
  datatype Response = Response(statusCode: int, message: Option<string>, data: Value, error: Option<string>)

  /** `Response.success(data)`. */
  function Success(data: Value): Response {
    Response(200, Some("Success"), data, None)
  }

  /** `Response.success(message, data)`. */
  function SuccessWith(message: string, data: Value): Response {
    Response(200, Some(message), data, None)
  }

  /** `Response.error(statusCode, message)`. */
  function Error(statusCode: int, message: string): Response {
    Response(statusCode, None, VNull, Some(message))
  }

  function NotFound(message: string): Response { Error(404, message) }

  function BadRequest(message: string): Response { Error(400, message) }

  function InternalError(message: string): Response { Error(500, message) }

  /** `Response.toJson()` as a tree: the status code, then either the error
      object alone or the message and data that are not null. */
  function ToJson(r: Response): (t: map<string, Value>)
    ensures "statusCode" in t && t["statusCode"] == VInt(r.statusCode)
    ensures r.error.Some? ==> t.Keys == {"statusCode", "error"} && t["error"] == VObj(map["message" := VStr(r.error.value)])
    ensures r.error.None? ==> ("message" in t <==> r.message.Some?) && ("data" in t <==> r.data != VNull)
    ensures r.error.None? && r.message.Some? ==> t["message"] == VStr(r.message.value)
    ensures r.error.None? && r.data != VNull ==> t["data"] == r.data
  {
    var base := map["statusCode" := VInt(r.statusCode)];
    if r.error.Some? then base["error" := VObj(map["message" := VStr(r.error.value)])]
    else
      var withMessage := if r.message.Some? then base["message" := VStr(r.message.value)] else base;
      if r.data != VNull then withMessage["data" := r.data] else withMessage
  }

  /** The success factories carry 200, their message and their data and no
      error; the named error factories are `error` with 404, 400 and 500. */
  lemma FactoryShapes(data: Value, message: string)
    ensures var j := ToJson(Success(data));
            && j["statusCode"] == VInt(200) && "message" in j && j["message"] == VStr("Success") && "error" !in j
    ensures var j := ToJson(SuccessWith(message, data));
            && j["statusCode"] == VInt(200) && "message" in j && j["message"] == VStr(message) && "error" !in j
    ensures NotFound(message) == Error(404, message) && BadRequest(message) == Error(400, message)
    ensures InternalError(message) == Error(500, message)
  {
  }

  /** Every error factory produces the error shape and nothing else. */
  lemma ErrorShape(statusCode: int, message: string)
    ensures ToJson(Error(statusCode, message)).Keys == {"statusCode", "error"}
    ensures ToJson(Error(statusCode, message))["statusCode"] == VInt(statusCode)
  {
  }

  // ---------------------------------------------------------------------------
  // HttpResponse

  /** An HTTP response: the status line's code and the JSON body as a tree. */
  datatype HttpResponse = HttpResponse(statusCode: int, body: map<string, Value>)

  /** The fields of a map that are not null. */
  function NonNullFields(m: map<string, Value>): (r: map<string, Value>)
    ensures r.Keys <= m.Keys
    ensures forall k :: k in m ==> (k in r <==> m[k] != VNull)
    ensures forall k :: k in r ==> r[k] == m[k]
  {
    map k | k in m && m[k] != VNull :: m[k]
  }

  /** `HttpResponse.success(message, data)`: a `Map` holding the key
      `"success"` is merged into the body as it is (its null entries dropped,
      no status code, no message); anything else is wrapped as
      `{statusCode: 200, message, data}` with `data` left out when null. */
  function HttpSuccess(message: Option<string>, data: Value): (r: HttpResponse)
    ensures r.statusCode == 200
    ensures data.VObj? && "success" in data.fields ==> r.body == NonNullFields(data.fields)
    ensures !(data.VObj? && "success" in data.fields) ==>
              r.body.Keys == {"statusCode", "message"} + (if data != VNull then {"data"} else {}) &&
              r.body["statusCode"] == VInt(200) &&
              r.body["message"] == (if message.Some? then VStr(message.value) else VNull) &&
              (data != VNull ==> r.body["data"] == data)
  {
    if data.VObj? && "success" in data.fields then HttpResponse(200, NonNullFields(data.fields))
    else
      var m := match message case Some(s) => VStr(s) case None => VNull;
      var base := map["statusCode" := VInt(200), "message" := m];
      HttpResponse(200, if data != VNull then base["data" := data] else base)
  }

  /** `HttpResponse.error(statusCode, message)`. */
  function HttpError(statusCode: int, message: string): (r: HttpResponse)
    ensures r.statusCode == statusCode
    ensures r.body.Keys == {"statusCode", "error"}
    ensures r.body["error"] == VObj(map["message" := VStr(message)])
  {
    HttpResponse(statusCode, map["statusCode" := VInt(statusCode), "error" := VObj(map["message" := VStr(message)])])
  }
}
