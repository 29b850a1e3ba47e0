/** `dnd.server.api.ApiRouter`: dispatch of a request to the endpoint
    registered under "METHOD path", either by exact key or by a route pattern
    whose `:name` parts stand for one path segment each. */
module ApiRouter {
  import opened Wrappers
  import opened Text
  import opened Json
  import opened Responses

  /** The endpoint classes registered by `registerRoutes`. */
  datatype Endpoint =
    | Medicines | MedicineDetail | CreateMedicine | UpdateMedicine | DeleteMedicine
    | Prescriptions | PrescriptionDetail | CreatePrescription | UpdatePrescription
    | InventoryLogs | ImportInventory | ExportInventory
    | History | DashboardStats
    | AuthStart | AuthVerify | AuthComplete | AdminLogin
    | SystemLog | SystemLogsList | AuditHistory | InventorySummary
    | StaffList | GetStaffProfile | CreateStaff | UpdateStaff | UpdateStaffActive
    | ResetStaffPassword | GrantAdmin | RevokeAdmin
    | IssueCard | GetIssueCounter | GetAllCards | GetCard | GetCardKeys | GetCardsByStaff
    | RevokeCardByStaff | RevokeCard | ActivateCard | UpdateCardLastAuth | CreateCardSession
    | ApduForward | GetStaffId | HealthCheck

  /** The `routes` map after `registerRoutes`, group by group. */
  const Routes: map<string, Endpoint> :=
    MedicineRoutes + PrescriptionRoutes + InventoryRoutes + AuthRoutes + SystemRoutes +
    StaffRoutes + CardRoutes

  const MedicineRoutes: map<string, Endpoint> := map[
    "GET /api/medicines" := Medicines,
    "GET /api/medicines/:id" := MedicineDetail,
    "POST /api/medicines" := CreateMedicine,
    "PUT /api/medicines/:id" := UpdateMedicine,
    "DELETE /api/medicines/:id" := DeleteMedicine
  ]

  const PrescriptionRoutes: map<string, Endpoint> := map[
    "GET /api/prescriptions" := Prescriptions,
    "GET /api/prescriptions/:id" := PrescriptionDetail,
    "POST /api/prescriptions" := CreatePrescription,
    "PUT /api/prescriptions/:id" := UpdatePrescription
  ]

  /** Inventory, history and dashboard. */
  const InventoryRoutes: map<string, Endpoint> := map[
    "GET /api/inventory/logs" := InventoryLogs,
    "POST /api/inventory/import" := ImportInventory,
    "POST /api/inventory/export" := ExportInventory,
    "GET /api/history" := History,
    "GET /api/dashboard/stats" := DashboardStats
  ]

  /** Card authentication and admin login. */
  const AuthRoutes: map<string, Endpoint> := map[
    "POST /api/auth/start" := AuthStart,
    "POST /api/auth/verify" := AuthVerify,
    "POST /api/auth/complete" := AuthComplete,
    "POST /api/admin/login" := AdminLogin
  ]

  /** System logs, inventory summary and the health check. */
  const SystemRoutes: map<string, Endpoint> := map[
    "POST /api/system/logs" := SystemLog,
    "GET /api/system/logs/system" := SystemLogsList,
    "GET /api/system/logs/audit" := AuditHistory,
    "GET /api/system/inventory/summary" := InventorySummary,
    "GET /api/health" := HealthCheck
  ]

  const StaffRoutes: map<string, Endpoint> := map[
    "GET /api/staff" := StaffList,
    "GET /api/staff/:id/profile" := GetStaffProfile,
    "POST /api/staff" := CreateStaff,
    "PUT /api/staff/:id" := UpdateStaff,
    "PUT /api/staff/:id/active" := UpdateStaffActive,
    "PUT /api/staff/:id/password" := ResetStaffPassword,
    "POST /api/staff/:id/admin" := GrantAdmin,
    "DELETE /api/staff/:id/admin" := RevokeAdmin
  ]

  /** Cards, APDU forwarding and card info. */
  const CardRoutes: map<string, Endpoint> := map[
    "POST /api/cards/issue" := IssueCard,
    "GET /api/cards/issue-counter/:type" := GetIssueCounter,
    "GET /api/cards" := GetAllCards,
    "GET /api/cards/:id" := GetCard,
    "GET /api/cards/:id/keys" := GetCardKeys,
    "GET /api/cards/staff/:id" := GetCardsByStaff,
    "PUT /api/cards/staff/:id/revoke" := RevokeCardByStaff,
    "PUT /api/cards/:id/revoke" := RevokeCard,
    "PUT /api/cards/:id/activate" := ActivateCard,
    "PUT /api/cards/:id/last-auth" := UpdateCardLastAuth,
    "POST /api/cards/sessions" := CreateCardSession,
    "POST /api/card/apdu" := ApduForward,
    "GET /api/card/:id/staff" := GetStaffId
  ]

  // ---------------------------------------------------------------------------
  // matchesPath

  /** A route pattern after `replaceAll(":[^/]+", "[^/]+")`: literal
      characters and parameters. */
  datatype Token = Lit(c: char) | Param

  /** The length of the longest prefix of `s` without a '/'. */
  function SegmentLength(s: string): (n: nat)
    ensures n <= |s|
    ensures forall i :: 0 <= i < n ==> s[i] != '/'
    ensures n < |s| ==> s[n] == '/'
  {
    if s == [] || s[0] == '/' then 0 else 1 + SegmentLength(s[1..])
  }

  /** The regular expression a route pattern becomes: scanning left to right,
      a ':' followed by at least one character other than '/' is replaced,
      together with all those characters, by a parameter. The registered
      patterns hold no other regular-expression metacharacters, so every
      other character stands for itself. */
  function Tokenize(p: string): (r: seq<Token>)
    decreases |p|
  {
    if p == [] then []
    else if p[0] == ':' && SegmentLength(p[1..]) >= 1 then [Param] + Tokenize(p[1 + SegmentLength(p[1..])..])
    else [Lit(p[0])] + Tokenize(p[1..])
  }

  /** `Pattern.matches`: the whole of `s` is in the language of the tokens; a
      parameter (`[^/]+`) takes one or more characters other than '/'. */
  function Match(toks: seq<Token>, s: string): bool
    decreases |toks|, |s| + 2
  {
    if toks == [] then s == []
    else match toks[0]
      case Lit(c) => s != [] && s[0] == c && Match(toks[1..], s[1..])
      case Param => MatchParam(toks[1..], s, 1)
  }

  /** A parameter that has taken `s[..k]` (so far without a '/') and the rest
      matched after it, trying every longer choice too. */
  function MatchParam(rest: seq<Token>, s: string, k: nat): bool
    requires k >= 1
    decreases |rest| + 1, |s| - k + 1
  {
    k <= |s| && s[k - 1] != '/' && (Match(rest, s[k..]) || MatchParam(rest, s, k + 1))
  }

  /** `matchesPath(routePattern, actualPath)`. */
  function MatchesPath(pattern: string, path: string): bool {
    Match(Tokenize(pattern), path)
  }

  /** A parameter followed by the end of the pattern or by a '/' takes exactly
      the path's next segment, which must not be empty. */
  lemma ParamTakesSegment(rest: seq<Token>, s: string)
    requires rest == [] || rest[0] == Lit('/')
    ensures Match([Param] + rest, s) <==> SegmentLength(s) >= 1 && Match(rest, s[SegmentLength(s)..])
  {
    assert ([Param] + rest)[1..] == rest;
    var k := SegmentLength(s);
    if k >= 1 {
      MatchParamAt(rest, s, 1);
    } else {
      assert !MatchParam(rest, s, 1);
    }
  }

  lemma {:induction false} MatchParamAt(rest: seq<Token>, s: string, j: nat)
    requires rest == [] || rest[0] == Lit('/')
    requires 1 <= j <= SegmentLength(s) + 1
    ensures MatchParam(rest, s, j) <==> j <= SegmentLength(s) && Match(rest, s[SegmentLength(s)..])
    decreases |s| - j
  {
    var k := SegmentLength(s);
    if j <= k {
      if j < k {
        assert !Match(rest, s[j..]) by {
          if rest != [] {
            assert s[j..][0] == s[j] != '/';
          }
        }
      }
      if j < |s| {
        MatchParamAt(rest, s, j + 1);
      }
    }
  }

  /** Plain characters in front of a pattern become literal tokens. */
  lemma {:induction false} TokenizeLiterals(w: string, q: string)
    requires ':' !in w
    ensures Tokenize(w + q) == Literals(w) + Tokenize(q)
  {
    if w != [] {
      assert (w + q)[1..] == w[1..] + q;
      assert (w + q)[0] == w[0];
      TokenizeLiterals(w[1..], q);
    } else {
      assert w + q == q;
    }
  }

  /** Literal tokens in front of a pattern match exactly the paths that start
      with them and whose remainder matches the rest of the pattern. */
  lemma {:induction false} MatchLiteralPrefix(w: string, toks: seq<Token>, s: string)
    ensures Match(Literals(w) + toks, s) <==> StartsWith(s, w) && Match(toks, s[|w|..])
  {
    if w == [] {
      assert Literals(w) + toks == toks;
      assert s[..0] == [] && s[0..] == s;
    } else {
      assert (Literals(w) + toks)[0] == Lit(w[0]);
      assert (Literals(w) + toks)[1..] == Literals(w[1..]) + toks;
      if s != [] && s[0] == w[0] {
        MatchLiteralPrefix(w[1..], toks, s[1..]);
        assert StartsWith(s, w) <==> StartsWith(s[1..], w[1..]);
        if |s| >= |w| {
          assert s[1..][|w| - 1..] == s[|w|..];
        }
      }
    }
  }

  lemma LiteralPrefix(w: string, q: string, s: string)
    requires ':' !in w
    ensures Tokenize(w + q) == Literals(w) + Tokenize(q)
    ensures Match(Literals(w) + Tokenize(q), s) <==> StartsWith(s, w) && Match(Tokenize(q), s[|w|..])
  {
    TokenizeLiterals(w, q);
    MatchLiteralPrefix(w, Tokenize(q), s);
  }

  function Literals(w: string): (r: seq<Token>)
    ensures |r| == |w| && forall i :: 0 <= i < |w| ==> r[i] == Lit(w[i])
  {
    if w == [] then [] else [Lit(w[0])] + Literals(w[1..])
  }

  lemma {:induction false} SegmentLengthOf(name: string, q: string)
    requires '/' !in name && (q == [] || q[0] == '/')
    ensures SegmentLength(name + q) == |name|
  {
    if name != [] {
      assert (name + q)[1..] == name[1..] + q;
      SegmentLengthOf(name[1..], q);
    } else {
      assert name + q == q;
    }
  }

  /** A parameter written `:name` becomes one parameter token. */
  lemma TokenizeParam(name: string, q: string)
    requires name != [] && '/' !in name && (q == [] || q[0] == '/')
    ensures Tokenize(":" + name + q) == [Param] + Tokenize(q)
  {
    var p := ":" + name + q;
    assert p[1..] == name + q;
    SegmentLengthOf(name, q);
    assert p[1 + |name|..] == q;
  }

  /** A literal pattern matches only itself. */
  lemma {:induction false} MatchLiterals(v: string, s: string)
    ensures Match(Literals(v), s) <==> s == v
  {
    if v != [] {
      assert Literals(v)[1..] == Literals(v[1..]);
      if s != [] {
        MatchLiterals(v[1..], s[1..]);
        assert s == v <==> s[0] == v[0] && s[1..] == v[1..];
      }
    }
  }

  /** A pattern `w:name`: the path starts with `w` and continues with one
      non-empty segment. */
  lemma MatchTrailingParam(w: string, name: string, s: string)
    requires ':' !in w && name != [] && '/' !in name
    ensures MatchesPath(w + ":" + name, s) <==>
              StartsWith(s, w) && |s| > |w| && '/' !in s[|w|..]
  {
    assert w + ":" + name == w + (":" + name + []);
    LiteralPrefix(w, ":" + name + [], s);
    TokenizeParam(name, []);
    assert Tokenize([]) == [] && [Param] + [] == [Param];
    if StartsWith(s, w) {
      var t := s[|w|..];
      ParamTakesSegment([], t);
      if '/' in t {
        var i :| 0 <= i < |t| && t[i] == '/';
        assert SegmentLength(t) <= i;
      }
    }
  }

  /** A pattern `w:name v` with `v` a literal starting with '/': the path
      starts with `w`, then one non-empty segment, then exactly `v`. */
  lemma MatchInnerParam(w: string, name: string, v: string, s: string)
    requires ':' !in w && ':' !in v && name != [] && '/' !in name && v != [] && v[0] == '/'
    ensures MatchesPath(w + ":" + name + v, s) <==>
              StartsWith(s, w) && SegmentLength(s[|w|..]) >= 1 && s[|w|..][SegmentLength(s[|w|..])..] == v
  {
    assert w + ":" + name + v == w + (":" + name + v);
    LiteralPrefix(w, ":" + name + v, s);
    TokenizeParam(name, v);
    LiteralPrefix(v, [], []);
    assert v + [] == v && Tokenize([]) == [] && Literals(v) + [] == Literals(v);
    if StartsWith(s, w) {
      var t := s[|w|..];
      ParamTakesSegment(Literals(v), t);
      MatchLiterals(v, t[SegmentLength(t)..]);
    }
  }

  /** `w:name` against `w` followed by `x`: `x` must be one non-empty segment. */
  lemma TrailingParamAfter(w: string, name: string, x: string)
    requires ':' !in w && name != [] && '/' !in name
    ensures MatchesPath(w + ":" + name, w + x) <==> x != [] && '/' !in x
  {
    MatchTrailingParam(w, name, w + x);
    assert (w + x)[..|w|] == w && (w + x)[|w|..] == x;
  }

  /** `w:name v` against `w` followed by `x`: `x` must be one non-empty
      segment followed by exactly `v`. */
  lemma InnerParamAfter(w: string, name: string, v: string, x: string)
    requires ':' !in w && ':' !in v && name != [] && '/' !in name && v != [] && v[0] == '/'
    ensures MatchesPath(w + ":" + name + v, w + x) <==> SegmentLength(x) >= 1 && x[SegmentLength(x)..] == v
  {
    MatchInnerParam(w, name, v, w + x);
    assert (w + x)[..|w|] == w && (w + x)[|w|..] == x;
  }

  /** "/api/medicines/:id" matches "/api/medicines/" followed by exactly one
      non-empty segment: not "/api/medicines/" (empty parameter) and not
      "/api/medicines/a/b" (a parameter never spans a '/'). */
  lemma MedicineIdPattern(p: string, x: string)
    requires p == "/api/medicines/:id"
    ensures MatchesPath(p, "/api/medicines/" + x) <==> x != [] && '/' !in x
  {
    assert p == "/api/medicines/" + ":" + "id";
    TrailingParamAfter("/api/medicines/", "id", x);
  }

  // ---------------------------------------------------------------------------
  // findHandler

  /** `routeKey.split(" ", 2)`: the text before the first space and the rest,
      or `None` when the key has no space (a one-element array). */
  function SplitKey(key: string): (r: Option<(string, string)>)
    ensures r.Some? ==> key == r.value.0 + " " + r.value.1 && ' ' !in r.value.0
    ensures r.None? <==> ' ' !in key
  {
    if key == [] then None
    else if key[0] == ' ' then Some(([], key[1..]))
    else match SplitKey(key[1..])
      case None => None
      case Some(parts) => Some(([key[0]] + parts.0, parts.1))
  }

  /** The pattern loop's test for one entry: the key's method is `verb` and its
      path pattern matches. */
  predicate Applies(routes: map<string, Endpoint>, key: string, verb: string, path: string) {
    key in routes && SplitKey(key).Some? && SplitKey(key).value.0 == verb &&
    MatchesPath(SplitKey(key).value.1, path)
  }

  /** The first entry of the enumeration `order` the pattern loop accepts. */
  function FirstApplicable(routes: map<string, Endpoint>, order: seq<string>, verb: string, path: string): (r: Option<nat>)
    ensures r.None? <==> forall i :: 0 <= i < |order| ==> !Applies(routes, order[i], verb, path)
    ensures r.Some? ==> r.value < |order| && Applies(routes, order[r.value], verb, path) &&
                        forall j :: 0 <= j < r.value ==> !Applies(routes, order[j], verb, path)
  {
    if order == [] then None
    else if Applies(routes, order[0], verb, path) then Some(0)
    else match FirstApplicable(routes, order[1..], verb, path)
      case None => None
      case Some(i) => Some(i + 1)
  }

  /** The handler `findHandler` returns: the exact key first, then the first
      applicable entry in the map's iteration order. The order of a `HashMap`
      is not specified, so it is a parameter. */
  function Route(routes: map<string, Endpoint>, order: seq<string>, verb: string, path: string): Option<Endpoint> {
    var key := verb + " " + path;
    if key in routes then Some(routes[key])
    else match FirstApplicable(routes, order, verb, path)
      case None => None
      case Some(i) => Some(routes[order[i]])
  }

  /** `findHandler(method, path)`. */
  method FindHandler(routes: map<string, Endpoint>, order: seq<string>, verb: string, path: string)
    returns (h: Option<Endpoint>)
    ensures verb + " " + path in routes ==> h == Some(routes[verb + " " + path])
    ensures h == Route(routes, order, verb, path)
  {
    var key := verb + " " + path;
    if key in routes {
      return Some(routes[key]);
    }
    for i := 0 to |order|
      invariant forall j :: 0 <= j < i ==> !Applies(routes, order[j], verb, path)
    {
      var routeKey := order[i];
      if routeKey in routes {
        var parts := SplitKey(routeKey);
        if parts.Some? && parts.value.0 == verb && MatchesPath(parts.value.1, path) {
          assert FirstApplicable(routes, order, verb, path) == Some(i);
          return Some(routes[routeKey]);
        }
      }
    }
    return None;
  }

  /** When `order` lists every key, the lookup fails exactly when no key
      applies: a failed lookup means there was nothing to find. */
  lemma NotFoundMeansNoRoute(routes: map<string, Endpoint>, order: seq<string>, verb: string, path: string)
    requires forall k :: k in routes ==> k in order
    ensures Route(routes, order, verb, path).None? <==>
              (verb + " " + path !in routes && forall k :: k in routes ==> !Applies(routes, k, verb, path))
  {
    if Route(routes, order, verb, path).None? {
      forall k | k in routes
        ensures !Applies(routes, k, verb, path)
      {
        var i :| 0 <= i < |order| && order[i] == k;
      }
    }
  }

  /** A found handler is registered under a key whose method is the
      request's, whatever the order. */
  lemma RouteHasMethod(routes: map<string, Endpoint>, order: seq<string>, verb: string, path: string)
    requires ' ' !in verb
    requires Route(routes, order, verb, path).Some?
    ensures exists k :: k in routes && routes[k] == Route(routes, order, verb, path).value &&
                        SplitKey(k).Some? && SplitKey(k).value.0 == verb
  {
    var key := verb + " " + path;
    if key in routes {
      SplitKeyOf(verb, path);
      assert SplitKey(key).value.0 == verb;
    } else {
      var i := FirstApplicable(routes, order, verb, path).value;
      assert Applies(routes, order[i], verb, path);
    }
  }

  lemma {:induction false} SplitKeyOf(verb: string, path: string)
    requires ' ' !in verb
    ensures SplitKey(verb + " " + path) == Some((verb, path))
  {
    var key := verb + " " + path;
    if verb == [] {
      assert key[1..] == path;
    } else {
      assert key[0] == verb[0] && key[1..] == verb[1..] + " " + path;
      SplitKeyOf(verb[1..], path);
      assert verb == [verb[0]] + verb[1..];
    }
  }

  /** When two registered patterns both apply and there is no exact entry,
      the handler is the one the iteration order lists first, so a change of
      order changes the handler. "GET /api/cards/staff/:id" and
      "GET /api/cards/:id/keys" are such a pair for "/api/cards/staff/keys"
      (`StaffKeysMatchesBoth`, `StaffKeysNotExact`). */
  lemma OrderDecides(routes: map<string, Endpoint>, a: string, b: string, verb: string, path: string)
    requires Applies(routes, a, verb, path) && Applies(routes, b, verb, path)
    requires verb + " " + path !in routes
    ensures Route(routes, [a, b], verb, path) == Some(routes[a])
    ensures Route(routes, [b, a], verb, path) == Some(routes[b])
  {
  }

  /** The card routes are registered last, so nothing overrides them. */
  lemma InCardRoutes(k: string)
    requires k in CardRoutes
    ensures k in Routes && Routes[k] == CardRoutes[k]
  {
  }

  /** No route is registered under "GET /api/cards/staff/keys" itself. */
  lemma StaffKeysNotExact(k: string)
    requires k == "GET /api/cards/staff/keys"
    ensures k !in Routes
  {
    NotInFirstGroups(k);
    NotInMiddleGroups(k);
    NotInCardGroup(k);
  }

  lemma NotInFirstGroups(k: string)
    requires k == "GET /api/cards/staff/keys"
    ensures k !in MedicineRoutes && k !in PrescriptionRoutes && k !in InventoryRoutes
  {
  }

  lemma NotInMiddleGroups(k: string)
    requires k == "GET /api/cards/staff/keys"
    ensures k !in AuthRoutes && k !in SystemRoutes && k !in StaffRoutes
  {
  }

  lemma NotInCardGroup(k: string)
    requires k == "GET /api/cards/staff/keys"
    ensures k !in CardRoutes
  {
  }

  /** "/api/cards/:id/keys" takes one non-empty segment after "/api/cards/",
      then exactly "/keys". */
  lemma KeysPattern(p: string, x: string)
    requires p == "/api/cards/:id/keys"
    ensures MatchesPath(p, "/api/cards/" + x) <==>
              SegmentLength(x) >= 1 && x[SegmentLength(x)..] == "/keys"
  {
    assert p == "/api/cards/" + ":" + "id" + "/keys";
    InnerParamAfter("/api/cards/", "id", "/keys", x);
  }

  /** "/api/cards/staff/keys" is matched by both "/api/cards/staff/:id" (with
      `id` = "keys") and "/api/cards/:id/keys" (with `id` = "staff"). */
  lemma StaffKeysMatchesBoth(staffId: string, keys: string, path: string)
    requires staffId == "/api/cards/staff/:id" && keys == "/api/cards/:id/keys"
    requires path == "/api/cards/staff/keys"
    ensures MatchesPath(staffId, path) && MatchesPath(keys, path)
  {
    StaffIdTakesKeys(staffId, path);
    KeysTakesStaff(keys, path);
  }

  lemma StaffIdTakesKeys(staffId: string, path: string)
    requires staffId == "/api/cards/staff/:id" && path == "/api/cards/staff/keys"
    ensures MatchesPath(staffId, path)
  {
    assert staffId == "/api/cards/staff/" + ":" + "id";
    assert path == "/api/cards/staff/" + "keys";
    TrailingParamAfter("/api/cards/staff/", "id", "keys");
  }

  lemma KeysTakesStaff(keys: string, path: string)
    requires keys == "/api/cards/:id/keys" && path == "/api/cards/staff/keys"
    ensures MatchesPath(keys, path)
  {
    var x := "staff/keys";
    StaffSegment(x);
    assert path == "/api/cards/" + x;
    KeysPattern(keys, x);
  }

  lemma StaffSegment(x: string)
    requires x == "staff/keys"
    ensures SegmentLength(x) == 5 && x[5..] == "/keys"
  {
    assert x[5] == '/';
    assert forall n :: 0 <= n < 5 ==> x[n] != '/';
  }

  // ---------------------------------------------------------------------------
  // handle

  /** `convertToHttpResponse`: status 200 becomes a success with the same
      message and data; any other status an error with that status and the
      error's message, or "Error" when there is none. */
  function Convert(r: Response): (h: HttpResponse)
    ensures h.statusCode == r.statusCode
    ensures r.statusCode == 200 ==> h == HttpSuccess(r.message, r.data)
    ensures r.statusCode != 200 && r.error.Some? ==> h == HttpError(r.statusCode, r.error.value)
    ensures r.statusCode != 200 && r.error.None? ==> h == HttpError(r.statusCode, "Error")
  {
    if r.statusCode == 200 then HttpSuccess(r.message, r.data)
    else HttpError(r.statusCode, if r.error.Some? then r.error.value else "Error")
  }

  /** Every error response of an endpoint reaches the client with its status
      and message unchanged. */
  lemma ConvertError(statusCode: int, message: string)
    requires statusCode != 200
    ensures Convert(Error(statusCode, message)).statusCode == statusCode
    ensures Convert(Error(statusCode, message)).body["error"] == VObj(map["message" := VStr(message)])
  {
  }

  const NoEndpointPrefix: string := "Endpoint không tồn tại: "
  const ServerErrorPrefix: string := "Lỗi server: "

  /** `handle(request)`: the method is upper-cased; no handler gives 404
      without running anything; a handler's exception gives 500; otherwise its
      response is converted. What a handler does is the parameter `run`, and
      the text of an exception's message the parameter `describe`. */
  method Handle(routes: map<string, Endpoint>, order: seq<string>, request: Request,
                run: (Endpoint, Request) -> Throws<Response>, describe: Exception -> string)
    returns (r: HttpResponse)
    ensures var verb := UpperAscii(request.verb);
            var h := Route(routes, order, verb, request.path);
            && (h.None? ==> r == HttpError(404, NoEndpointPrefix + verb + " " + request.path))
            && (h.Some? && run(h.value, request).Failure? ==>
                  r == HttpError(500, ServerErrorPrefix + describe(run(h.value, request).error)))
            && (h.Some? && run(h.value, request).Success? ==> r == Convert(run(h.value, request).value))
  {
    var verb := UpperAscii(request.verb);
    var handler := FindHandler(routes, order, verb, request.path);
    if handler.None? {
      return HttpError(404, NoEndpointPrefix + verb + " " + request.path);
    }
    var outcome := run(handler.value, request);
    match outcome {
      case Failure(e) =>
        r := HttpError(500, ServerErrorPrefix + describe(e));
      case Success(response) =>
        r := Convert(response);
    }
  }

  /** The method is compared after upper-casing: "get" and "GET" reach the
      same handler. */
  lemma MethodCaseIgnored(routes: map<string, Endpoint>, order: seq<string>, path: string)
    ensures Route(routes, order, UpperAscii("get"), path) == Route(routes, order, "GET", path)
  {
    assert UpperAscii("get") == "GET";
  }
}
