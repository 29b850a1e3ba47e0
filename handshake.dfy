/** The card handshake as a protocol: start, verify and complete run one after
    the other over the shared session store and the card tables. */
module Handshake {
  import opened Wrappers
  import opened Bytes
  import opened Primitives
  import opened Database
  import opened Json
  import opened Sessions
  import Hex
  import Responses
  import AuthService
  import AuthStart
  import AuthVerify
  import AuthComplete

  /** A successful start followed, within five minutes, by a completion that
      names the temporary id and sends a 32-byte card challenge: the
      completion succeeds with the MAC of the card challenge under the
      card's decrypted static key, the temporary session is gone, and the
      `card_sessions` row (unless its insert failed) records the server
      challenge start issued. */
  lemma StartThenComplete(aes: Cipher, mac: Mac, cards: seq<CardRow>, cardSessions: seq<CardSessionRow>,
                          sessions: map<string, AuthSession>, base: Request, cardId: string, challenge: Bytes,
                          tempId: string, started: int, cc: Bytes, now: int, id: string, insertFails: bool)
    requires !AuthStart.IsZeroCard(cardId)
    requires AuthService.Start(aes, cards, cardId, challenge).Success?
    requires |AuthService.Start(aes, cards, cardId, challenge).value.staticKey| == 32 && |cc| == 32
    requires started <= now <= started + SessionTimeout
    ensures var key := AuthService.Start(aes, cards, cardId, challenge).value.staticKey;
            var sessions1 := AuthStart.Outcome(aes, cards, sessions, AuthStart.CardIdRequest(base, cardId), started, challenge, tempId).1;
            var r := AuthComplete.Outcome(mac, AuthComplete.State(sessions1, cards, cardSessions),
                                          AuthComplete.CompleteRequest(base, tempId, Hex.Encode(cc, true)), now, id, insertFails);
            var secrets := AuthService.SessionSecrets(mac, key, challenge, cc);
            && secrets.Success?
            && r.0 == Wrappers.Success(Responses.Success(AuthComplete.CompleteData(
                        AuthService.CompleteResult(mac(key, cc), id, secrets.value.1, secrets.value.2))))
            && r.1.sessions == sessions - {tempId}
            && r.1.cardSessions == cardSessions +
                 (if insertFails then [] else [CardSessionRow(cardId, id, challenge, cc, now + AuthService.SessionTtl)])
  {
    var st := AuthService.Start(aes, cards, cardId, challenge).value;
    var s := NewSession(cardId, st.staticKey, st.publicKey, challenge, started);
    var sessions1 := sessions[tempId := s];
    assert AuthStart.Outcome(aes, cards, sessions, AuthStart.CardIdRequest(base, cardId), started, challenge, tempId).1 == sessions1 by {
      AuthStart.StartStoresOneSession(aes, cards, sessions, base, cardId, started, challenge, tempId);
    }
    var r := AuthComplete.Outcome(mac, AuthComplete.State(sessions1, cards, cardSessions),
                                  AuthComplete.CompleteRequest(base, tempId, Hex.Encode(cc, true)), now, id, insertFails);
    var secrets := AuthService.SessionSecrets(mac, s.staticKey, s.challengeServer, cc);
    assert secrets.Success? && r.0 == Wrappers.Success(Responses.Success(AuthComplete.CompleteData(
             AuthService.CompleteResult(mac(s.staticKey, cc), id, secrets.value.1, secrets.value.2))))
           && r.1.sessions == sessions1 - {tempId}
           && r.1.cardSessions == cardSessions +
                (if insertFails then [] else [CardSessionRow(cardId, id, challenge, cc, now + AuthService.SessionTtl)]) by {
      AuthComplete.CompleteWithoutVerify(mac, AuthComplete.State(sessions1, cards, cardSessions), tempId, s, base, cc,
                                         now, id, insertFails);
    }
    PutThenRemove(sessions, tempId, s);
  }

  /** Completion does not depend on verification: running verify first (with
      any request and whatever its result) and then complete gives the same
      answer and the same tables as completing directly, because verify only
      evicts sessions that would already have expired by the completion. */
  lemma VerifyDoesNotGateComplete(rsa: Verifier, mac: Mac, st: AuthComplete.State, verifyRequest: Request, verifiedAt: int,
                                  request: Request, now: int, id: string, insertFails: bool)
    requires verifiedAt <= now
    ensures var sessionsV := AuthVerify.Handle(rsa, st.sessions, verifyRequest, verifiedAt).1;
            var direct := AuthComplete.Outcome(mac, st, request, now, id, insertFails);
            var afterVerify := AuthComplete.Outcome(mac, st.(sessions := sessionsV), request, now, id, insertFails);
            direct.0 == afterVerify.0 && direct.1.cards == afterVerify.1.cards && direct.1.cardSessions == afterVerify.1.cardSessions
  {
    var sessionsV := AuthVerify.Handle(rsa, st.sessions, verifyRequest, verifiedAt).1;
    if AuthComplete.HasFields(request) && AuthComplete.ReadFields(request.body.value).Success? {
      var tempId := AuthComplete.ReadFields(request.body.value).value.0;
      assert Lookup(st.sessions, tempId, now).0 == Lookup(sessionsV, tempId, now).0 by {
        if tempId in st.sessions && tempId !in sessionsV {
          assert Expired(st.sessions[tempId], verifiedAt);
        }
      }
    }
  }
}
