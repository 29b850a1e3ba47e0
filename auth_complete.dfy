/** `dnd.server.endpoints.AuthCompleteEndpoint` (`POST /api/auth/complete`):
    finishes the handshake held in a temporary session with the card's
    challenge, then consumes the session. */
module AuthComplete {
  import opened Wrappers
  import opened Bytes
  import opened Primitives
  import opened Database
  import opened Json
  import opened Responses
  import opened Sessions
  import Hex
  import CardKeyDao
  import AuthService

  const FieldsRequired: string := "sessionId and challengeCard are required"
  const InvalidSession: string := "Invalid or expired session"

  /** What the endpoint reads and writes: the temporary sessions and the two
      tables `completeAuthentication` writes. */
  datatype State = State(sessions: map<string, AuthSession>, cards: seq<CardRow>, cardSessions: seq<CardSessionRow>)

  /** The body exists and `has` both fields. */
  predicate HasFields(request: Request) {
    request.body.Some? && "sessionId" in request.body.value && "challengeCard" in request.body.value
  }

  /** The temporary id through `getAsString`, then the card challenge through
      `getAsString` and `hexToBytes`. */
  function ReadFields(body: Body): (r: Throws<(string, Bytes)>)
    requires "sessionId" in body && "challengeCard" in body
    ensures r.Success? ==>
              && AsString(body["sessionId"]) == Success(r.value.0)
              && AsString(body["challengeCard"]).Success?
              && Hex.Decode(Some(AsString(body["challengeCard"]).value)) == Success(r.value.1)
    ensures r.Failure? <==>
              || AsString(body["sessionId"]).Failure?
              || AsString(body["challengeCard"]).Failure?
              || Hex.Decode(Some(AsString(body["challengeCard"]).value)).Failure?
  {
    var tempId :- AsString(body["sessionId"]);
    var ccText :- AsString(body["challengeCard"]);
    var challengeCard :- Hex.Decode(Some(ccText));
    Success((tempId, challengeCard))
  }

  /** The success payload: the byte values as upper-case hex, the permanent
      session id as it is. */
  function CompleteData(c: AuthService.CompleteResult): Value {
    VObj(map[
      "cryptogram" := VStr(Hex.Encode(c.cryptogram, true)),
      "sessionId" := VStr(c.sessionId),
      "sessionEncKey" := VStr(Hex.Encode(c.sessionEncKey, true)),
      "sessionMacKey" := VStr(Hex.Encode(c.sessionMacKey, true))])
  }

  /** The temporary id a request names, when its fields can be read. */
  function NamedSession(request: Request): Option<string> {
    if HasFields(request) && ReadFields(request.body.value).Success? then Some(ReadFields(request.body.value).value.0)
    else None
  }

  /** `handle(request)` on `st` at time `now`, with `newId` as the permanent
      session id drawn by `completeAuthentication` and `insertFails` the fate
      of its `card_sessions` insert: the response (or the exception) and the
      state afterwards. */
  function Outcome(mac: Mac, st: State, request: Request, now: int, newId: string, insertFails: bool)
    : (r: (Throws<Response>, State))
    ensures !HasFields(request) ==> r == (Success(BadRequest(FieldsRequired)), st)
    // Sessions are only ever removed.
    ensures r.1.sessions.Keys <= st.sessions.Keys && forall k :: k in r.1.sessions ==> r.1.sessions[k] == st.sessions[k]
    // A 200 consumes the live session the request names and reports the new id.
    ensures r.0.Success? && r.0.value.statusCode == 200 ==>
              && NamedSession(request).Some?
              && (var id := NamedSession(request).value;
                  id in st.sessions && !Expired(st.sessions[id], now) && id !in r.1.sessions)
              && r.0.value.data.VObj? && "sessionId" in r.0.value.data.fields
              && r.0.value.data.fields["sessionId"] == VStr(newId)
    // Anything else only evicts expired sessions and leaves both tables alone.
    ensures !(r.0.Success? && r.0.value.statusCode == 200) ==>
              && (forall k :: k in st.sessions && k !in r.1.sessions ==> Expired(st.sessions[k], now))
              && r.1.cards == st.cards && r.1.cardSessions == st.cardSessions
  {
    if !HasFields(request) then (Success(BadRequest(FieldsRequired)), st)
    else match ReadFields(request.body.value)
      case Failure(e) => (Failure(e), st)
      case Success(fields) =>
        var (tempId, challengeCard) := fields;
        var (session, after) := Lookup(st.sessions, tempId, now);
        if session.None? then (Success(BadRequest(InvalidSession)), st.(sessions := after))
        else
          var s := session.value;
          var (result, cards, cardSessions) :=
            AuthService.Complete(mac, st.cards, st.cardSessions, s.cardId, s.staticKey, s.challengeServer,
                                 challengeCard, now, newId, insertFails);
          match result
          case Failure(e) => (Failure(e), State(after, cards, cardSessions))
          case Success(c) => (Success(Responses.Success(CompleteData(c))), State(after - {tempId}, cards, cardSessions))
  }

  /** `handle(request)`: the state afterwards is the one `Outcome` gives for
      some 64-character session id. */
  method Handle(mac: Mac, db: Db, store: Store, request: Request, now: int, insertFails: bool)
    returns (r: Throws<Response>)
    modifies store, db`cards, db`cardSessions
    ensures exists id :: AuthService.IsSessionId(id) &&
              (r, State(store.sessions, db.cards, db.cardSessions))
              == Outcome(mac, State(old(store.sessions), old(db.cards), old(db.cardSessions)), request, now, id, insertFails)
  {
    ghost var st := State(store.sessions, db.cards, db.cardSessions);
    ghost var noId := Hex.Encode(Zeros(32), false);
    AuthService.SomeSessionId();
    if !HasFields(request) {
      r := Success(BadRequest(FieldsRequired));
      assert (r, st) == Outcome(mac, st, request, now, noId, insertFails);
      return;
    }
    var body := request.body.value;
    var idField := AsString(body["sessionId"]);
    var ccField := AsString(body["challengeCard"]);
    if idField.Failure? || ccField.Failure? {
      r := Failure(if idField.Failure? then idField.error else ccField.error);
      assert (r, st) == Outcome(mac, st, request, now, noId, insertFails);
      return;
    }
    var challengeCard := Hex.HexToBytes(Some(ccField.value));
    if challengeCard.Failure? {
      r := Failure(challengeCard.error);
      assert (r, st) == Outcome(mac, st, request, now, noId, insertFails);
      return;
    }
    var tempId := idField.value;
    var session := store.Get(tempId, now);
    if session.None? {
      r := Success(BadRequest(InvalidSession));
      assert (r, State(store.sessions, db.cards, db.cardSessions)) == Outcome(mac, st, request, now, noId, insertFails);
      return;
    }
    var s := session.value;
    var result := AuthService.CompleteAuthentication(mac, db, s.cardId, s.staticKey, s.challengeServer,
                                                     challengeCard.value, now, insertFails);
    ghost var id :| AuthService.IsSessionId(id) &&
      (result, db.cards, db.cardSessions) == AuthService.Complete(mac, st.cards, st.cardSessions, s.cardId, s.staticKey,
                                                                  s.challengeServer, challengeCard.value, now, id, insertFails);
    if result.Failure? {
      r := Failure(result.error);
      assert (r, State(store.sessions, db.cards, db.cardSessions)) == Outcome(mac, st, request, now, id, insertFails);
      return;
    }
    store.Remove(tempId);
    var c := result.value;
    var cryptogram := Hex.BytesToHex(Some(c.cryptogram));
    var encKey := Hex.BytesToHex(Some(c.sessionEncKey));
    var macKey := Hex.BytesToHex(Some(c.sessionMacKey));
    r := Success(Responses.Success(VObj(map[
      "cryptogram" := VStr(cryptogram),
      "sessionId" := VStr(c.sessionId),
      "sessionEncKey" := VStr(encKey),
      "sessionMacKey" := VStr(macKey)])));
    assert (r, State(store.sessions, db.cards, db.cardSessions)) == Outcome(mac, st, request, now, id, insertFails);
  }

  // ---------------------------------------------------------------------------
  // Laws

  /** The request body `{"sessionId": id, "challengeCard": cc}`. */
  function CompleteRequest(base: Request, id: string, cc: string): Request {
    base.(body := Some(map["sessionId" := JStr(id), "challengeCard" := JStr(cc)]))
  }

  /** A body built from hex text reads back as the id and the bytes. */
  lemma ReadsEncodedFields(base: Request, id: string, cc: Bytes)
    ensures HasFields(CompleteRequest(base, id, Hex.Encode(cc, true)))
    ensures ReadFields(CompleteRequest(base, id, Hex.Encode(cc, true)).body.value) == Success((id, cc))
  {
    Hex.DecodeEncode(cc, true);
  }

  /** A request that names a live session completes it with that session's
      card, static key and server challenge and the request's card challenge. */
  lemma LiveSessionOutcome(mac: Mac, st: State, tempId: string, base: Request, cc: Bytes,
                           now: int, id: string, insertFails: bool)
    requires tempId in st.sessions && !Expired(st.sessions[tempId], now)
    ensures var s := st.sessions[tempId];
            var c := AuthService.Complete(mac, st.cards, st.cardSessions, s.cardId, s.staticKey, s.challengeServer,
                                          cc, now, id, insertFails);
            Outcome(mac, st, CompleteRequest(base, tempId, Hex.Encode(cc, true)), now, id, insertFails)
            == if c.0.Failure? then (Failure(c.0.error), State(st.sessions, c.1, c.2))
               else (Success(Responses.Success(CompleteData(c.0.value))), State(st.sessions - {tempId}, c.1, c.2))
  {
    ReadsEncodedFields(base, tempId, cc);
    assert Lookup(st.sessions, tempId, now) == (Some(st.sessions[tempId]), st.sessions);
  }

  /** A temporary session is good for one completion: replaying the same
      request, at any time and whatever happens to the insert, gets 400 and
      changes nothing. */
  lemma SingleUse(mac: Mac, st: State, request: Request, now: int, id: string, insertFails: bool,
                  now2: int, id2: string, insertFails2: bool)
    requires Outcome(mac, st, request, now, id, insertFails).0.Success?
    requires Outcome(mac, st, request, now, id, insertFails).0.value.statusCode == 200
    ensures var st1 := Outcome(mac, st, request, now, id, insertFails).1;
            Outcome(mac, st1, request, now2, id2, insertFails2) == (Success(BadRequest(InvalidSession)), st1)
  {
  }

  /** A live session alone is enough: nothing records whether the signature
      was verified, and completion with a 32-byte static key and a 32-byte
      card challenge succeeds, consumes the session, reports the MAC of the
      challenge under the static key and writes the tables. */
  lemma CompleteWithoutVerify(mac: Mac, st: State, tempId: string, s: AuthSession, base: Request, cc: Bytes,
                              now: int, id: string, insertFails: bool)
    requires tempId in st.sessions && st.sessions[tempId] == s && !Expired(s, now)
    requires |s.staticKey| == 32 && |cc| == 32
    ensures var r := Outcome(mac, st, CompleteRequest(base, tempId, Hex.Encode(cc, true)), now, id, insertFails);
            var secrets := AuthService.SessionSecrets(mac, s.staticKey, s.challengeServer, cc);
            && secrets.Success?
            && r.0 == Success(Responses.Success(CompleteData(
                        AuthService.CompleteResult(mac(s.staticKey, cc), id, secrets.value.1, secrets.value.2))))
            && r.1.sessions == st.sessions - {tempId}
            && r.1.cards == CardKeyDao.Touched(st.cards, s.cardId, now)
            && r.1.cardSessions == st.cardSessions +
                 (if insertFails then [] else [CardSessionRow(s.cardId, id, s.challengeServer, cc, now + AuthService.SessionTtl)])
  {
    LiveSessionOutcome(mac, st, tempId, base, cc, now, id, insertFails);
  }

  /** A completion that throws, for example on a card challenge that is not
      32 bytes, leaves the temporary session in place and both tables as
      they were, so the card may try again. */
  lemma FailedCompleteKeepsSession(mac: Mac, st: State, tempId: string, s: AuthSession, base: Request, cc: Bytes,
                                   now: int, id: string, insertFails: bool)
    requires tempId in st.sessions && st.sessions[tempId] == s && !Expired(s, now)
    requires |s.staticKey| != 32 || |cc| != 32
    ensures Outcome(mac, st, CompleteRequest(base, tempId, Hex.Encode(cc, true)), now, id, insertFails)
            == (Failure(IllegalArgument), st)
  {
    LiveSessionOutcome(mac, st, tempId, base, cc, now, id, insertFails);
  }
}
