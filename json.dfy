/** The part of Gson's tree model the endpoints read. A request body is a
    `JsonObject`; its fields are read through `has`, `get`, `isJsonNull`,
    `isJsonPrimitive` and the `getAsString`/`getAsDouble`/`getAsLong`/`getAsInt`
    conversions, each of which may throw. */
module Json {
  import opened Wrappers
  import opened Text
  import opened Numeric

  /** A parsed JSON value. A number keeps the text it was written with, as
      Gson's `LazilyParsedNumber` does, next to the exact value of that text. */
  datatype Json =
    | JStr(s: string)
    | JNum(text: string, value: real)
    | JBool(b: bool)
    | JNull
    | JObject(fields: map<string, Json>)
    | JArray(items: seq<Json>)

  /** A parsed request body: `JsonObject`, whose `has(k)` is `k in body` (a
      field holding JSON null counts as present). */
  type Body = map<string, Json>

  /** `isJsonPrimitive()`. */
  predicate IsPrimitive(j: Json) {
    j.JStr? || j.JNum? || j.JBool?
  }

  function BoolText(b: bool): string {
    if b then "true" else "false"
  }

  /** `getAsString()`: a number gives its text, a boolean `true`/`false`; an
      array of one element defers to that element, any other array throws
      IllegalStateException; null and objects throw
      UnsupportedOperationException. */
  function AsString(j: Json): (r: Throws<string>)
    ensures j.JStr? ==> r == Success(j.s)
    ensures r.Failure? <==> !IsPrimitive(j) && !(j.JArray? && |j.items| == 1 && AsString(j.items[0]).Success?)
  {
    match j
    case JStr(s) => Success(s)
    case JNum(text, _) => Success(text)
    case JBool(b) => Success(BoolText(b))
    case JNull => Failure(UnsupportedOperation)
    case JObject(_) => Failure(UnsupportedOperation)
    case JArray(items) => if |items| == 1 then AsString(items[0]) else Failure(IllegalState)
  }

  /** `getAsDouble()`: a number gives its value; a string or a boolean is read
      with `Double.parseDouble`, which may throw NumberFormatException. */
  function AsDouble(j: Json): (r: Throws<Double>)
    ensures j.JNum? ==> r == Success(Finite(j.value))
    ensures j.JStr? ==> (r.Success? <==> ParseDouble(j.s).Some?)
  {
    match j
    case JNum(_, value) => Success(Finite(value))
    case JStr(s) => ReadDouble(s)
    case JBool(b) => ReadDouble(BoolText(b))
    case JNull => Failure(UnsupportedOperation)
    case JObject(_) => Failure(UnsupportedOperation)
    case JArray(items) => if |items| == 1 then AsDouble(items[0]) else Failure(IllegalState)
  }

  function ReadDouble(s: string): Throws<Double> {
    match ParseDouble(s)
    case None => Failure(NumberFormat)
    case Some(d) => Success(d)
  }

  /** `getAsLong()`: a number is `LazilyParsedNumber.longValue`, i.e.
      `Long.parseLong` of its text or else `BigDecimal.longValue` (truncation
      toward zero, then the low 64 bits); a string or a boolean is read with
      `Long.parseLong`. */
  function AsLong(j: Json): (r: Throws<int>)
    ensures r.Success? ==> LongMin <= r.value <= LongMax
    ensures j.JNum? ==> r == Success(WrapLong(TruncToZero(j.value)))
  {
    match j
    case JNum(_, value) => Success(WrapLong(TruncToZero(value)))
    case JStr(s) => ReadLong(s)
    case JBool(b) => ReadLong(BoolText(b))
    case JNull => Failure(UnsupportedOperation)
    case JObject(_) => Failure(UnsupportedOperation)
    case JArray(items) => if |items| == 1 then AsLong(items[0]) else Failure(IllegalState)
  }

  function ReadLong(s: string): (r: Throws<int>)
    ensures r.Success? ==> LongMin <= r.value <= LongMax
  {
    match ParseLong(s)
    case None => Failure(NumberFormat)
    case Some(n) => Success(n)
  }

  /** `getAsInt()`: as `getAsLong`, with 32 bits and `Integer.parseInt`. */
  function AsInt(j: Json): (r: Throws<int>)
    ensures r.Success? ==> IntMin <= r.value <= IntMax
    ensures j.JNum? ==> r == Success(WrapInt(TruncToZero(j.value)))
  {
    match j
    case JNum(_, value) => Success(WrapInt(TruncToZero(value)))
    case JStr(s) => ReadInt(s)
    case JBool(b) => ReadInt(BoolText(b))
    case JNull => Failure(UnsupportedOperation)
    case JObject(_) => Failure(UnsupportedOperation)
    case JArray(items) => if |items| == 1 then AsInt(items[0]) else Failure(IllegalState)
  }

  function ReadInt(s: string): (r: Throws<int>)
    ensures r.Success? ==> IntMin <= r.value <= IntMax
  {
    match ParseInt(s)
    case None => Failure(NumberFormat)
    case Some(n) => Success(n)
  }

  /** `body.has(k) ? body.get(k).getAsString() : null`. */
  function StringField(body: Body, key: string): (r: Throws<Option<string>>)
    ensures key !in body ==> r == Success(None)
    ensures key in body ==> (r.Success? <==> AsString(body[key]).Success?)
    ensures r.Success? && r.value.Some? ==> key in body && AsString(body[key]) == Success(r.value.value)
  {
    if key in body then
      var s :- AsString(body[key]);
      Success(Some(s))
    else Success(None)
  }

  /** `body.has(k) && !body.get(k).isJsonNull() ? body.get(k).getAsString() : null`. */
  function NonNullStringField(body: Body, key: string): (r: Throws<Option<string>>)
    ensures key !in body || body[key].JNull? ==> r == Success(None)
    ensures r.Success? && r.value.Some? ==> key in body && AsString(body[key]) == Success(r.value.value)
    ensures r.Failure? ==> key in body && AsString(body[key]).Failure?
  {
    if key in body && !body[key].JNull? then
      var s :- AsString(body[key]);
      Success(Some(s))
    else Success(None)
  }

  /** `body.has(k) ? body.get(k).getAsInt() : 0`. */
  function IntFieldOrZero(body: Body, key: string): (r: Throws<int>)
    ensures key !in body ==> r == Success(0)
    ensures key in body ==> r == AsInt(body[key])
  {
    if key in body then AsInt(body[key]) else Success(0)
  }

  /** `body.has(k) && !body.get(k).isJsonNull() ? body.get(k).getAsLong() : null`. */
  function NonNullLongField(body: Body, key: string): (r: Throws<Option<int>>)
    ensures key !in body || body[key].JNull? ==> r == Success(None)
    ensures r.Success? && r.value.Some? ==> key in body && AsLong(body[key]) == Success(r.value.value)
  {
    if key in body && !body[key].JNull? then
      var n :- AsLong(body[key]);
      Success(Some(n))
    else Success(None)
  }

  /** A string field holding a decimal integer reads back as that integer
      through `getAsLong` and through `getAsDouble`. */
  lemma DecimalStringReadsBack(n: int)
    requires LongMin <= n <= LongMax
    ensures AsLong(JStr(DecimalOf(n))) == Success(n)
    ensures AsDouble(JStr(DecimalOf(n))) == Success(Finite(n as real))
  {
    ParseLongOfDecimal(n);
    ParseDoubleOfDecimal(n);
  }

  /** An integral number inside the range of `long` reads back unchanged
      through `getAsLong`. */
  lemma IntegralNumberReadsBack(text: string, n: int)
    requires LongMin <= n <= LongMax
    ensures AsLong(JNum(text, n as real)) == Success(n)
  {
    WrapInRange(n);
  }

  /** A number inside the range of `long` is truncated toward zero, never
      rounded: `2.9` reads as 2 and `-2.9` as -2. */
  lemma NumberTruncates(text: string, v: real)
    requires LongMin as real <= v <= LongMax as real
    ensures AsLong(JNum(text, v)) == Success(TruncToZero(v))
    ensures v >= 0.0 ==> AsLong(JNum(text, v)).value as real <= v
    ensures v <= 0.0 ==> AsLong(JNum(text, v)).value as real >= v
  {
    var t := TruncToZero(v);
    assert LongMin <= t <= LongMax by {
      assert (LongMin - 1) as real < t as real < (LongMax + 1) as real;
    }
    WrapInRange(t);
    assert AsLong(JNum(text, v)) == Success(t);
  }

  /** `2^31` read with `getAsInt` wraps to `Integer.MIN_VALUE`. */
  lemma IntOverflowWraps()
    ensures AsInt(JNum("2147483648", 2147483648.0)) == Success(IntMin)
  {
  }

  /** A one-element array reads as its element. */
  lemma SingletonArrayReadsThrough(j: Json)
    ensures AsString(JArray([j])) == AsString(j)
    ensures AsLong(JArray([j])) == AsLong(j)
  {
  }

  // ---------------------------------------------------------------------------
  // Requests

  /** `dnd.server.api.Request`: method (`verb`), path, headers, the parsed body (`null`
      when the request had none) and the query parameters. */
  datatype Request = Request(
    verb: string,
    path: string,
    headers: map<string, string>,
    body: Option<Body>,
    query: map<string, string>)

  /** `request.getHeader(name)`. */
  function Header(r: Request, name: string): Option<string> {
    if name in r.headers then Some(r.headers[name]) else None
  }
}
