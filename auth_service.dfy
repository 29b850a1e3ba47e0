/** `dnd.server.service.AuthenticationService`: the three steps of the card
    handshake over the card table. Start and verify only read; complete
    writes one `card_sessions` row and stamps the card. The clock is the
    parameter `now` (milliseconds); `SecureRandom` is a nondeterministic
    choice. */
module AuthService {
  import opened Wrappers
  import opened Bytes
  import opened Primitives
  import opened Database
  import CardKeyDao
  import CryptoUtils
  import Kdf
  import Hex

  /** `MASTER_KEY`: 32 bytes, every one 0x42. */
  const MasterKey: Bytes := [
    0x42, 0x42, 0x42, 0x42, 0x42, 0x42, 0x42, 0x42, 0x42, 0x42, 0x42, 0x42, 0x42, 0x42, 0x42, 0x42,
    0x42, 0x42, 0x42, 0x42, 0x42, 0x42, 0x42, 0x42, 0x42, 0x42, 0x42, 0x42, 0x42, 0x42, 0x42, 0x42]

  /** `SESSION_TTL`: fifteen minutes, in milliseconds. */
  const SessionTtl: int := 15 * 60 * 1000

  datatype StartResult = StartResult(challengeServer: Bytes, publicKey: Option<Bytes>, staticKey: Bytes)

  datatype CompleteResult = CompleteResult(cryptogram: Bytes, sessionId: string, sessionEncKey: Bytes, sessionMacKey: Bytes)

  // ---------------------------------------------------------------------------
  // startAuthentication

  /** The static key of a card as `decryptStaticKey` gives it under the master key. */
  function StaticKeyOf(aes: Cipher, card: CardRow): Throws<Bytes> {
    CryptoUtils.DecryptStaticKey(aes, card.encryptedKey, card.keyIv, Some(MasterKey))
  }

  /** `startAuthentication(cardId)` with `challenge` as the RNG's output: no
      active card is a RuntimeException; otherwise the card's public key (which
      may be null), its decrypted static key and the challenge. A NULL key
      column is the IllegalArgumentException of `decryptStaticKey`. */
  function Start(aes: Cipher, cards: seq<CardRow>, cardId: string, challenge: Bytes): (r: Throws<StartResult>)
    ensures CardKeyDao.FindByCardId(cards, cardId).None? ==> r == Failure(Runtime)
    ensures r.Success? <==> CardKeyDao.FindByCardId(cards, cardId).Some? &&
                            StaticKeyOf(aes, CardKeyDao.FindByCardId(cards, cardId).value).Success?
    ensures r.Success? ==>
              var card := CardKeyDao.FindByCardId(cards, cardId).value;
              r.value == StartResult(challenge, card.publicKey, StaticKeyOf(aes, card).value)
    ensures CardKeyDao.FindByCardId(cards, cardId).Some? && r.Failure? ==>
              r.error == StaticKeyOf(aes, CardKeyDao.FindByCardId(cards, cardId).value).error
  {
    var card := CardKeyDao.FindByCardId(cards, cardId);
    var keys := CardKeyDao.GetEncryptedStaticKey(cards, cardId);
    if card.None? || keys.None? then Failure(Runtime)
    else
      var staticKey :- CryptoUtils.DecryptStaticKey(aes, keys.value.0, keys.value.1, Some(MasterKey));
      Success(StartResult(challenge, card.value.publicKey, staticKey))
  }

  /** `startAuthentication(cardId)`: the challenge is 32 fresh bytes, and
      whether the call throws does not depend on them. */
  method StartAuthentication(aes: Cipher, cards: seq<CardRow>, cardId: string) returns (r: Throws<StartResult>)
    ensures r.Success? ==> |r.value.challengeServer| == CryptoUtils.ChallengeSize
    ensures r.Success? ==> r == Start(aes, cards, cardId, r.value.challengeServer)
    ensures r.Failure? ==> forall c :: Start(aes, cards, cardId, c) == r
  {
    var card := CardKeyDao.FindByCardId(cards, cardId);
    if card.None? {
      return Failure(Runtime);
    }
    var keys := CardKeyDao.GetEncryptedStaticKey(cards, cardId);
    if keys.None? {
      return Failure(Runtime);
    }
    var decrypted := CryptoUtils.DecryptStaticKey(aes, keys.value.0, keys.value.1, Some(MasterKey));
    if decrypted.Failure? {
      return Failure(decrypted.error);
    }
    var challenge := CryptoUtils.GenerateChallenge();
    r := Success(StartResult(challenge, card.value.publicKey, decrypted.value));
  }

  // ---------------------------------------------------------------------------
  // verifySignature

  /** `verifySignature(publicKey, challengeServer, signature, challengeCard)`:
      the signature is checked over challengeServer alone; a signature the
      verifier rejects is a RuntimeException, so the only value returned is
      `true`. */
  function VerifySignature(rsa: Verifier, publicKey: Option<Bytes>, challengeServer: Bytes,
                           signature: Bytes, challengeCard: Bytes): (r: Throws<bool>)
    ensures r.Success? <==> CryptoUtils.VerifyRsaSignature(rsa, publicKey, challengeServer, signature) == Success(true)
    ensures r.Success? ==> r.value
    ensures r.Failure? ==> r.error == Runtime
  {
    var valid :- CryptoUtils.VerifyRsaSignature(rsa, publicKey, challengeServer, signature);
    if !valid then Failure(Runtime) else Success(true)
  }

  /** The card's challenge plays no part in verification. */
  lemma VerifyIgnoresChallengeCard(rsa: Verifier, publicKey: Option<Bytes>, challengeServer: Bytes,
                                   signature: Bytes, cc1: Bytes, cc2: Bytes)
    ensures VerifySignature(rsa, publicKey, challengeServer, signature, cc1) ==
            VerifySignature(rsa, publicKey, challengeServer, signature, cc2)
  {
  }

  // ---------------------------------------------------------------------------
  // completeAuthentication

  /** The 64-character lower-case hex text `generateSessionIdHex64` produces. */
  predicate IsSessionId(id: string) {
    |id| == 64 && forall i :: 0 <= i < |id| ==> Hex.IsLowerHexDigit(id[i])
  }

  /** The all-zero id is one `generateSessionIdHex64` can produce. */
  lemma SomeSessionId()
    ensures IsSessionId(Hex.Encode(Zeros(32), false))
  {
    forall i | 0 <= i < 64 ensures Hex.IsLowerHexDigit(Hex.Encode(Zeros(32), false)[i]) {
      Hex.EncodeChar(Zeros(32), false, i);
    }
  }

  /** `generateSessionIdHex64()`: 32 random bytes printed with `%02x`. */
  method GenerateSessionIdHex64() returns (id: string)
    ensures IsSessionId(id)
    ensures exists b: Bytes :: |b| == 32 && id == Hex.Encode(b, false)
  {
    assert |Zeros(32)| == 32;
    var b: Bytes :| |b| == 32;
    id := Hex.FormatLowerHex(b);
  }

  /** The cryptogram and the two session keys: `computeServerCryptogram`
      (static key and card challenge both 32 bytes) then `deriveSessionKeys`. */
  function SessionSecrets(mac: Mac, staticKey: Bytes, cs: Bytes, cc: Bytes): (r: Throws<(Bytes, Bytes, Bytes)>)
    ensures r.Success? <==> |staticKey| == 32 && |cc| == 32
    ensures r.Failure? ==> r.error == IllegalArgument
    ensures r.Success? ==> r.value.0 == mac(staticKey, cc)
    ensures r.Success? ==> Kdf.DeriveSessionKeys(mac, Some(staticKey), Some(cs), Some(cc)) == Success((r.value.1, r.value.2))
  {
    var cryptogram :- CryptoUtils.ComputeServerCryptogram(mac, Some(staticKey), Some(cc));
    Kdf.SessionKeysAreHkdf(mac, staticKey, cs, cc);
    assert |cs + cc| >= 32;
    // With a 32-byte card challenge the salt is never empty, so the
    // derivation cannot throw here.
    var keys := Kdf.DeriveSessionKeys(mac, Some(staticKey), Some(cs), Some(cc)).value;
    Success((cryptogram, keys.0, keys.1))
  }

  /** `completeAuthentication(cardId, staticKey, cs, cc)` at time `now`, with
      `sessionId` as the generated id and `insertFails` the outcome of the
      `card_sessions` insert: the result and the two tables afterwards. A
      failed insert is not noticed; the card is stamped either way. */
  function Complete(mac: Mac, cards: seq<CardRow>, cardSessions: seq<CardSessionRow>, cardId: string,
                    staticKey: Bytes, cs: Bytes, cc: Bytes, now: int, sessionId: string, insertFails: bool)
    : (r: (Throws<CompleteResult>, seq<CardRow>, seq<CardSessionRow>))
    ensures r.0.Failure? <==> SessionSecrets(mac, staticKey, cs, cc).Failure?
    ensures r.0.Failure? ==> r.0.error == IllegalArgument && r.1 == cards && r.2 == cardSessions
    ensures r.0.Success? ==>
              var s := SessionSecrets(mac, staticKey, cs, cc).value;
              && r.0.value == CompleteResult(s.0, sessionId, s.1, s.2)
              && r.1 == CardKeyDao.Touched(cards, cardId, now)
              && r.2 == cardSessions + (if insertFails then [] else [CardSessionRow(cardId, sessionId, cs, cc, now + SessionTtl)])
  {
    match SessionSecrets(mac, staticKey, cs, cc)
    case Failure(e) => (Failure(e), cards, cardSessions)
    case Success(s) =>
      var row := CardSessionRow(cardId, sessionId, cs, cc, now + SessionTtl);
      var sessions' := if insertFails then cardSessions else cardSessions + [row];
      (Success(CompleteResult(s.0, sessionId, s.1, s.2)), CardKeyDao.Touched(cards, cardId, now), sessions')
  }

  /** `completeAuthentication`: draws the session id, then writes both tables. */
  method CompleteAuthentication(mac: Mac, db: Db, cardId: string, staticKey: Bytes, cs: Bytes, cc: Bytes,
                                now: int, insertFails: bool)
    returns (r: Throws<CompleteResult>)
    modifies db`cards, db`cardSessions
    ensures exists id :: IsSessionId(id) &&
              (r, db.cards, db.cardSessions) == Complete(mac, old(db.cards), old(db.cardSessions), cardId,
                                                         staticKey, cs, cc, now, id, insertFails)
  {
    var secrets := SessionSecrets(mac, staticKey, cs, cc);
    if secrets.Failure? {
      SomeSessionId();
      assert (Failure(secrets.error), db.cards, db.cardSessions) ==
             Complete(mac, db.cards, db.cardSessions, cardId, staticKey, cs, cc, now, Hex.Encode(Zeros(32), false), insertFails);
      return Failure(secrets.error);
    }
    var sessionId := GenerateSessionIdHex64();
    if !insertFails {
      db.cardSessions := db.cardSessions + [CardSessionRow(cardId, sessionId, cs, cc, now + SessionTtl)];
    }
    CardKeyDao.UpdateLastAuth(db, cardId, now);
    r := Success(CompleteResult(secrets.value.0, sessionId, secrets.value.1, secrets.value.2));
    assert (r, db.cards, db.cardSessions) ==
           Complete(mac, old(db.cards), old(db.cardSessions), cardId, staticKey, cs, cc, now, sessionId, insertFails);
  }

  // ---------------------------------------------------------------------------
  // Laws

  /** Start writes nothing: its result is a value, and a failed lookup or
      decryption throws before any challenge is used. A successful start hands
      back the master-key decryption of the stored key. */
  lemma StartDecryptsUnderMasterKey(aes: Cipher, cards: seq<CardRow>, cardId: string, challenge: Bytes)
    requires Start(aes, cards, cardId, challenge).Success?
    ensures var card := CardKeyDao.FindByCardId(cards, cardId).value;
            card.encryptedKey.Some? && card.keyIv.Some? && |card.keyIv.value| == CryptoUtils.IvSize &&
            aes(MasterKey, card.keyIv.value, card.encryptedKey.value) == Some(Start(aes, cards, cardId, challenge).value.staticKey)
  {
    assert |MasterKey| == CryptoUtils.AesKeySize;
  }

  /** A card whose key or IV column is NULL cannot start a handshake: the
      null reaches `decryptStaticKey`, which throws IllegalArgumentException. */
  lemma NullKeyColumnThrows(aes: Cipher, cards: seq<CardRow>, cardId: string, challenge: Bytes)
    requires CardKeyDao.FindByCardId(cards, cardId).Some?
    requires CardKeyDao.FindByCardId(cards, cardId).value.encryptedKey.None? ||
             CardKeyDao.FindByCardId(cards, cardId).value.keyIv.None?
    ensures Start(aes, cards, cardId, challenge) == Failure(IllegalArgument)
  {
  }

  /** A completed handshake's cryptogram is the MAC of the card challenge under
      the static key, and its keys are RFC 5869 HKDF of the static key salted
      with both challenges. */
  lemma CompleteKeysAreHkdf(mac: Mac, cards: seq<CardRow>, cardSessions: seq<CardSessionRow>, cardId: string,
                            staticKey: Bytes, cs: Bytes, cc: Bytes, now: int, id: string, insertFails: bool)
    requires |staticKey| == 32 && |cc| == 32
    ensures var r := Complete(mac, cards, cardSessions, cardId, staticKey, cs, cc, now, id, insertFails).0;
            && r.Success?
            && r.value.cryptogram == mac(staticKey, cc)
            && Kdf.Derive(mac, Some(staticKey), Some(cs + cc), Some(Kdf.EncLabel[..3]), 32) == Success(r.value.sessionEncKey)
            && Kdf.Derive(mac, Some(staticKey), Some(cs + cc), Some(Kdf.MacLabel[..3]), 32) == Success(r.value.sessionMacKey)
  {
    Kdf.SessionKeysAreHkdf(mac, staticKey, cs, cc);
  }

  /** The insert's failure is swallowed: the caller sees the same success,
      only the `card_sessions` table differs. */
  lemma InsertFailureUnnoticed(mac: Mac, cards: seq<CardRow>, cardSessions: seq<CardSessionRow>, cardId: string,
                               staticKey: Bytes, cs: Bytes, cc: Bytes, now: int, id: string)
    ensures var ok := Complete(mac, cards, cardSessions, cardId, staticKey, cs, cc, now, id, false);
            var lost := Complete(mac, cards, cardSessions, cardId, staticKey, cs, cc, now, id, true);
            ok.0 == lost.0 && ok.1 == lost.1 && (ok.0.Success? ==> |ok.2| == |lost.2| + 1 && lost.2 == cardSessions)
  {
  }
}
