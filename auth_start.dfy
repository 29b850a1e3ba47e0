/** `dnd.server.endpoints.AuthStartEndpoint` (`POST /api/auth/start`): begins
    a handshake for `cardId` and parks its state in the session store under a
    fresh temporary id. An all-zero card id is answered without any lookup. */
module AuthStart {
  import opened Wrappers
  import opened Bytes
  import opened Primitives
  import opened Database
  import opened Json
  import opened Responses
  import opened Sessions
  import Text
  import Hex
  import AuthService

  const CardIdRequired: string := "cardId is required"
  const BypassMessage: string := "Card empty, bypass"

  /** `normalized.matches("^0+$")` on the id with every `\s` removed: at least
      one character, all of them '0'. (`toUpperCase` maps no character to '0',
      so it does not change the test.) */
  predicate IsZeroCard(cardId: string) {
    var n := Text.RemoveWhitespace(cardId);
    n != [] && forall i :: 0 <= i < |n| ==> n[i] == '0'
  }

  /** The success payload: the temporary id and the upper-case hex challenge. */
  function StartData(tempId: string, challenge: Bytes): Value {
    VObj(map["sessionId" := VStr(tempId), "challengeServer" := VStr(Hex.Encode(challenge, true))])
  }

  /** `handle(request)` on the store `sessions` at time `now`, with
      `challenge` and `tempId` as the two random draws: the response (or the
      exception) and the store afterwards. */
  function Outcome(aes: Cipher, cards: seq<CardRow>, sessions: map<string, AuthSession>, request: Request,
                   now: int, challenge: Bytes, tempId: string)
    : (r: (Throws<Response>, map<string, AuthSession>))
    ensures request.body.None? || "cardId" !in request.body.value ==> r == (Success(BadRequest(CardIdRequired)), sessions)
    ensures r.1 == sessions || (tempId in r.1 && r.1 == sessions[tempId := r.1[tempId]])
    ensures r.1 != sessions ==>
              && tempId in r.1 && r.1[tempId].createdAt == now
              && r.0 == Success(Responses.Success(StartData(tempId, r.1[tempId].challengeServer)))
    ensures r.0.Failure? || (r.0.Success? && r.0.value.statusCode != 200) ==> r.1 == sessions
  {
    if request.body.None? || "cardId" !in request.body.value then (Success(BadRequest(CardIdRequired)), sessions)
    else match AsString(request.body.value["cardId"])
      case Failure(e) => (Failure(e), sessions)
      case Success(cardId) =>
        if IsZeroCard(cardId) then (Success(SuccessWith(BypassMessage, VObj(map[]))), sessions)
        else match AuthService.Start(aes, cards, cardId, challenge)
          case Failure(e) => (Failure(e), sessions)
          case Success(res) =>
            var session := NewSession(cardId, res.staticKey, res.publicKey, res.challengeServer, now);
            (Success(Responses.Success(StartData(tempId, res.challengeServer))), sessions[tempId := session])
  }

  /** `generateTempSessionId()`: 16 random bytes printed with `%02x`. */
  method GenerateTempSessionId() returns (id: string)
    ensures |id| == 32 && forall i :: 0 <= i < |id| ==> Hex.IsLowerHexDigit(id[i])
    ensures exists b: Bytes :: |b| == 16 && id == Hex.Encode(b, false)
  {
    assert |Zeros(16)| == 16;
    var b: Bytes :| |b| == 16;
    id := Hex.FormatLowerHex(b);
  }

  /** `handle(request)`: the store afterwards is the one `Outcome` gives for
      some 32-byte challenge and some 32-character hex id. */
  method Handle(aes: Cipher, cards: seq<CardRow>, store: Store, request: Request, now: int)
    returns (r: Throws<Response>)
    modifies store
    ensures exists c: Bytes, t: Bytes :: |c| == 32 && |t| == 16 &&
              (r, store.sessions) == Outcome(aes, cards, old(store.sessions), request, now, c, Hex.Encode(t, false))
  {
    ghost var noChallenge, noId := Zeros(32), Hex.Encode(Zeros(16), false);
    if request.body.None? || "cardId" !in request.body.value {
      r := Success(BadRequest(CardIdRequired));
      assert (r, store.sessions) == Outcome(aes, cards, store.sessions, request, now, noChallenge, noId);
      return;
    }
    var field := AsString(request.body.value["cardId"]);
    if field.Failure? {
      r := Failure(field.error);
      assert (r, store.sessions) == Outcome(aes, cards, store.sessions, request, now, noChallenge, noId);
      return;
    }
    var cardId := field.value;
    if IsZeroCard(cardId) {
      r := Success(SuccessWith(BypassMessage, VObj(map[])));
      assert (r, store.sessions) == Outcome(aes, cards, store.sessions, request, now, noChallenge, noId);
      return;
    }
    var result := AuthService.StartAuthentication(aes, cards, cardId);
    if result.Failure? {
      r := Failure(result.error);
      assert (r, store.sessions) == Outcome(aes, cards, store.sessions, request, now, noChallenge, noId);
      return;
    }
    var tempId := GenerateTempSessionId();
    ghost var t :| |t| == 16 && tempId == Hex.Encode(t, false);
    var session := NewSession(cardId, result.value.staticKey, result.value.publicKey, result.value.challengeServer, now);
    store.Put(tempId, session);
    var challengeHex := Hex.BytesToHex(Some(result.value.challengeServer));
    r := Success(Responses.Success(VObj(map["sessionId" := VStr(tempId), "challengeServer" := VStr(challengeHex)])));
    assert (r, store.sessions) == Outcome(aes, cards, old(store.sessions), request, now, result.value.challengeServer, tempId);
  }

  // ---------------------------------------------------------------------------
  // Laws

  /** The request body `{"cardId": s}`. */
  function CardIdRequest(base: Request, s: string): Request {
    base.(body := Some(map["cardId" := JStr(s)]))
  }

  /** An all-zero card id, spaces allowed, is answered 200 with empty data:
      no card is looked up (the answer is the same for every card table and
      cipher) and nothing is stored. */
  lemma ZeroCardBypass(aes: Cipher, cards: seq<CardRow>, sessions: map<string, AuthSession>, base: Request,
                       s: string, now: int, challenge: Bytes, tempId: string)
    requires IsZeroCard(s)
    ensures Outcome(aes, cards, sessions, CardIdRequest(base, s), now, challenge, tempId)
            == (Success(SuccessWith(BypassMessage, VObj(map[]))), sessions)
  {
  }

  /** "0 0 0" is bypassed; "" and "   " are not, because `^0+$` needs a
      character, so they go to the card lookup. */
  lemma BypassExamples()
    ensures IsZeroCard("0 0 0")
    ensures !IsZeroCard("") && !IsZeroCard("   ")
  {
    assert Text.RemoveWhitespace("0 0 0") == "000" by {
      assert "0 0 0"[1..] == " 0 0";
      assert " 0 0"[1..] == "0 0";
      assert "0 0"[1..] == " 0";
      assert " 0"[1..] == "0";
      assert "0"[1..] == "";
    }
    assert Text.RemoveWhitespace("   ") == "" by {
      assert "   "[1..] == "  ";
      assert "  "[1..] == " ";
      assert " "[1..] == "";
    }
  }

  /** A card id that is not all zeros goes to `startAuthentication` with the
      id exactly as sent; on success exactly one session is stored, under the
      temporary id, holding that raw id, the start result and `now`, and the
      response's hex challenge decodes back to the stored challenge. */
  lemma StartStoresOneSession(aes: Cipher, cards: seq<CardRow>, sessions: map<string, AuthSession>, base: Request,
                              s: string, now: int, challenge: Bytes, tempId: string)
    requires !IsZeroCard(s)
    ensures var r := Outcome(aes, cards, sessions, CardIdRequest(base, s), now, challenge, tempId);
            var st := AuthService.Start(aes, cards, s, challenge);
            && (r.0.Failure? <==> st.Failure?)
            && (st.Success? ==>
                  && r.1 == sessions[tempId := NewSession(s, st.value.staticKey, st.value.publicKey, challenge, now)]
                  && r.0 == Success(Responses.Success(StartData(tempId, challenge)))
                  && Hex.Decode(Some(Hex.Encode(challenge, true))) == Success(r.1[tempId].challengeServer))
  {
    Hex.DecodeEncode(challenge, true);
  }
}
