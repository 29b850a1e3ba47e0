/** `dnd.server.endpoints.AuthVerifyEndpoint` (`POST /api/auth/verify`):
    checks the card's RSA signature over the server challenge held in a
    temporary session. It writes nothing; the store changes only when the
    read evicts an expired session. */
module AuthVerify {
  import opened Wrappers
  import opened Bytes
  import opened Primitives
  import opened Json
  import opened Responses
  import opened Sessions
  import Hex
  import CryptoUtils
  import AuthService

  const FieldsRequired: string := "sessionId, signature, and challengeCard are required"
  const InvalidSession: string := "Invalid or expired session"

  /** The body exists and `has` all three fields (a JSON null counts as present). */
  predicate HasFields(request: Request) {
    request.body.Some? && "sessionId" in request.body.value && "signature" in request.body.value
    && "challengeCard" in request.body.value
  }

  /** The only success payload. */
  const Valid: Value := VObj(map["valid" := VBool(true)])

  /** The three fields as read, in order: the session id, then the signature
      and the card challenge, each through `getAsString` and `hexToBytes`. */
  function ReadFields(body: Body): (r: Throws<(string, Bytes, Bytes)>)
    requires "sessionId" in body && "signature" in body && "challengeCard" in body
    ensures r.Success? ==>
              && AsString(body["sessionId"]) == Success(r.value.0)
              && AsString(body["signature"]).Success? && Hex.Decode(Some(AsString(body["signature"]).value)) == Success(r.value.1)
              && AsString(body["challengeCard"]).Success?
              && Hex.Decode(Some(AsString(body["challengeCard"]).value)) == Success(r.value.2)
    ensures r.Failure? <==>
              || AsString(body["sessionId"]).Failure?
              || AsString(body["signature"]).Failure? || Hex.Decode(Some(AsString(body["signature"]).value)).Failure?
              || AsString(body["challengeCard"]).Failure?
              || Hex.Decode(Some(AsString(body["challengeCard"]).value)).Failure?
  {
    var sessionId :- AsString(body["sessionId"]);
    var sigText :- AsString(body["signature"]);
    var signature :- Hex.Decode(Some(sigText));
    var ccText :- AsString(body["challengeCard"]);
    var challengeCard :- Hex.Decode(Some(ccText));
    Success((sessionId, signature, challengeCard))
  }

  /** `handle(request)` on the store `sessions` at time `now`: the response
      (or the exception) and the store afterwards. */
  function Handle(rsa: Verifier, sessions: map<string, AuthSession>, request: Request, now: int)
    : (r: (Throws<Response>, map<string, AuthSession>))
    ensures !HasFields(request) ==> r == (Success(BadRequest(FieldsRequired)), sessions)
    // The store only loses entries, at most one, and only an expired one.
    ensures r.1.Keys <= sessions.Keys && forall k :: k in r.1 ==> r.1[k] == sessions[k]
    ensures forall k :: k in sessions && k !in r.1 ==> Expired(sessions[k], now)
    ensures forall k, k' :: k in sessions && k !in r.1 && k' in sessions && k' !in r.1 ==> k == k'
    // A success is `valid: true` or one of the two 400s; never `valid: false`.
    ensures r.0.Success? ==>
              || r.0.value == Responses.Success(Valid)
              || r.0.value == BadRequest(FieldsRequired)
              || r.0.value == BadRequest(InvalidSession)
  {
    if !HasFields(request) then (Success(BadRequest(FieldsRequired)), sessions)
    else match ReadFields(request.body.value)
      case Failure(e) => (Failure(e), sessions)
      case Success(fields) =>
        var (session, after) := Lookup(sessions, fields.0, now);
        if session.None? then (Success(BadRequest(InvalidSession)), after)
        else match AuthService.VerifySignature(rsa, session.value.publicKey, session.value.challengeServer, fields.1, fields.2)
          case Failure(e) => (Failure(e), after)
          case Success(_) => (Success(Responses.Success(Valid)), after)
  }

  // ---------------------------------------------------------------------------
  // Laws

  /** The request body `{"sessionId": id, "signature": sig, "challengeCard": cc}`. */
  function VerifyRequest(base: Request, id: string, sig: string, cc: string): Request {
    base.(body := Some(map["sessionId" := JStr(id), "signature" := JStr(sig), "challengeCard" := JStr(cc)]))
  }

  /** A body built from hex text reads back as the id and the bytes. */
  lemma ReadsEncodedFields(base: Request, id: string, sig: Bytes, cc: Bytes)
    ensures HasFields(VerifyRequest(base, id, Hex.Encode(sig, true), Hex.Encode(cc, true)))
    ensures ReadFields(VerifyRequest(base, id, Hex.Encode(sig, true), Hex.Encode(cc, true)).body.value)
            == Success((id, sig, cc))
  {
    Hex.DecodeEncode(sig, true);
    Hex.DecodeEncode(cc, true);
  }

  /** For a well-formed request naming a live session, the answer is
      `valid: true` exactly when the verifier accepts the signature over that
      session's own challenge under its own public key, and an exception
      (500 at the router) otherwise; the store is unchanged. */
  lemma VerifyDecides(rsa: Verifier, sessions: map<string, AuthSession>, base: Request, id: string,
                      sig: Bytes, cc: Bytes, now: int)
    requires id in sessions && !Expired(sessions[id], now)
    ensures var r := Handle(rsa, sessions, VerifyRequest(base, id, Hex.Encode(sig, true), Hex.Encode(cc, true)), now);
            var s := sessions[id];
            && r.1 == sessions
            && (r.0 == Success(Responses.Success(Valid)) <==>
                CryptoUtils.VerifyRsaSignature(rsa, s.publicKey, s.challengeServer, sig) == Success(true))
            && (r.0.Success? || r.0 == Failure(Runtime))
  {
    ReadsEncodedFields(base, id, sig, cc);
  }

  /** The request's challengeCard is decoded but does not affect the answer. */
  lemma ChallengeCardUnused(rsa: Verifier, sessions: map<string, AuthSession>, base: Request, id: string,
                            sig: Bytes, cc1: Bytes, cc2: Bytes, now: int)
    ensures Handle(rsa, sessions, VerifyRequest(base, id, Hex.Encode(sig, true), Hex.Encode(cc1, true)), now)
            == Handle(rsa, sessions, VerifyRequest(base, id, Hex.Encode(sig, true), Hex.Encode(cc2, true)), now)
  {
    ReadsEncodedFields(base, id, sig, cc1);
    ReadsEncodedFields(base, id, sig, cc2);
  }

  /** An unknown or expired session is a 400 whatever the signature; an
      expired one is evicted by the read. */
  lemma UnknownSessionRejected(rsa: Verifier, sessions: map<string, AuthSession>, base: Request, id: string,
                               sig: Bytes, cc: Bytes, now: int)
    requires id !in sessions || Expired(sessions[id], now)
    ensures Handle(rsa, sessions, VerifyRequest(base, id, Hex.Encode(sig, true), Hex.Encode(cc, true)), now)
            == (Success(BadRequest(InvalidSession)), sessions - {id})
  {
    var request := VerifyRequest(base, id, Hex.Encode(sig, true), Hex.Encode(cc, true));
    ReadsEncodedFields(base, id, sig, cc);
    var lookup := Lookup(sessions, id, now);
    assert lookup == (None, sessions - {id}) by {
      if id !in sessions {
        assert sessions - {id} == sessions;
      }
    }
    assert Handle(rsa, sessions, request, now) == (Success(BadRequest(InvalidSession)), lookup.1);
  }
}
