/** `dnd.server.crypto.CryptoUtils`: argument guards in front of AES-CBC,
    SHA1withRSA and HMAC-SHA256. A `None` argument is Java's `null`. */
module CryptoUtils {
  import opened Wrappers
  import opened Bytes
  import opened Primitives

  const AesKeySize: nat := 32
  const IvSize: nat := 16
  const ChallengeSize: nat := 32

  /** `decryptStaticKey(encryptedKey, iv, masterKey)`: null arguments, then a
      master key that is not 32 bytes or an IV that is not 16 bytes, are
      IllegalArgumentExceptions; a cipher failure is a RuntimeException. The
      plaintext length is not checked. */
  function DecryptStaticKey(aes: Cipher, encryptedKey: Option<Bytes>, iv: Option<Bytes>,
                            masterKey: Option<Bytes>): (r: Throws<Bytes>)
    ensures (encryptedKey.None? || iv.None? || masterKey.None?) ==> r == Failure(IllegalArgument)
    ensures (encryptedKey.Some? && iv.Some? && masterKey.Some?) ==>
              (r == Failure(IllegalArgument) <==> |masterKey.value| != AesKeySize || |iv.value| != IvSize)
    ensures r == Failure(Runtime) <==>
              encryptedKey.Some? && iv.Some? && masterKey.Some? && |masterKey.value| == AesKeySize &&
              |iv.value| == IvSize && aes(masterKey.value, iv.value, encryptedKey.value).None?
    ensures r.Success? ==> Some(r.value) == aes(masterKey.value, iv.value, encryptedKey.value)
  {
    if encryptedKey.None? || iv.None? || masterKey.None? then Failure(IllegalArgument)
    else if |masterKey.value| != AesKeySize || |iv.value| != IvSize then Failure(IllegalArgument)
    else match aes(masterKey.value, iv.value, encryptedKey.value)
      case None => Failure(Runtime)
      case Some(plain) => Success(plain)
  }

  /** `generateChallenge()`: 32 bytes from `SecureRandom`; any 32 bytes may come out. */
  method GenerateChallenge() returns (challenge: Bytes)
    ensures |challenge| == ChallengeSize
  {
    assert |Zeros(ChallengeSize)| == ChallengeSize;
    challenge :| |challenge| == ChallengeSize;
  }

  /** `computeServerCryptogram(staticKey, challengeCard)`: both must be 32 bytes
      (IllegalArgumentException otherwise, the key checked first); the result
      is HMAC-SHA256 keyed with the static key over the card challenge. */
  function ComputeServerCryptogram(mac: Mac, staticKey: Option<Bytes>, challengeCard: Option<Bytes>): (r: Throws<Bytes>)
    ensures r.Failure? <==>
              staticKey.None? || |staticKey.value| != AesKeySize ||
              challengeCard.None? || |challengeCard.value| != ChallengeSize
    ensures r.Failure? ==> r.error == IllegalArgument
    ensures r.Success? ==> r.value == mac(staticKey.value, challengeCard.value) && |r.value| == 32
  {
    if staticKey.None? || |staticKey.value| != AesKeySize then Failure(IllegalArgument)
    else if challengeCard.None? || |challengeCard.value| != ChallengeSize then Failure(IllegalArgument)
    else match HmacSha256(mac, staticKey.value, challengeCard.value)
      case Failure(_) => Failure(Runtime)
      case Success(h) => Success(h)
  }

  /** `verifyRSASignature(publicKey, data, signature)`: the verifier's answer;
      a null or malformed key, or a malformed signature, throws a
      RuntimeException instead of answering false. */
  function VerifyRsaSignature(rsa: Verifier, publicKey: Option<Bytes>, data: Bytes, signature: Bytes): (r: Throws<bool>)
    ensures r.Failure? <==> publicKey.None? || rsa(publicKey.value, data, signature).None?
    ensures r.Failure? ==> r.error == Runtime
    ensures r.Success? ==> Some(r.value) == rsa(publicKey.value, data, signature)
  {
    if publicKey.None? then Failure(Runtime)
    else match rsa(publicKey.value, data, signature)
      case None => Failure(Runtime)
      case Some(ok) => Success(ok)
  }

  /** `decryptWithSession(key, iv, ciphertext)`: rejects, in this order, a null
      or empty ciphertext, a key that is not 32 bytes and an IV that is not 16
      bytes; a cipher failure is a RuntimeException. */
  function DecryptWithSession(aes: Cipher, sessionEncKey: Option<Bytes>, iv: Option<Bytes>,
                              ciphertext: Option<Bytes>): (r: Throws<Bytes>)
    ensures r == Failure(IllegalArgument) <==>
              ciphertext.None? || ciphertext.value == [] ||
              sessionEncKey.None? || |sessionEncKey.value| != AesKeySize ||
              iv.None? || |iv.value| != IvSize
    ensures r.Success? ==> Some(r.value) == aes(sessionEncKey.value, iv.value, ciphertext.value)
    ensures r.Failure? ==> r.error == IllegalArgument || aes(sessionEncKey.value, iv.value, ciphertext.value).None?
  {
    if ciphertext.None? || ciphertext.value == [] then Failure(IllegalArgument)
    else if sessionEncKey.None? || |sessionEncKey.value| != AesKeySize then Failure(IllegalArgument)
    else if iv.None? || |iv.value| != IvSize then Failure(IllegalArgument)
    else match aes(sessionEncKey.value, iv.value, ciphertext.value)
      case None => Failure(Runtime)
      case Some(plain) => Success(plain)
  }

  /** `computeMAC(data, macKey)`: null data or a key that is not 32 bytes is an
      IllegalArgumentException; otherwise HMAC-SHA256(macKey, data). */
  function ComputeMac(mac: Mac, data: Option<Bytes>, sessionMacKey: Option<Bytes>): (r: Throws<Bytes>)
    ensures r.Failure? <==> data.None? || sessionMacKey.None? || |sessionMacKey.value| != AesKeySize
    ensures r.Failure? ==> r.error == IllegalArgument
    ensures r.Success? ==> r.value == mac(sessionMacKey.value, data.value) && |r.value| == 32
  {
    if data.None? || sessionMacKey.None? || |sessionMacKey.value| != AesKeySize then Failure(IllegalArgument)
    else match HmacSha256(mac, sessionMacKey.value, data.value)
      case Failure(_) => Failure(Runtime)
      case Success(h) => Success(h)
  }

  /** The server cryptogram is the session MAC of the card challenge under the
      static key: the two guards agree whenever the challenge is 32 bytes. */
  lemma CryptogramIsMac(mac: Mac, staticKey: Option<Bytes>, challengeCard: Bytes)
    requires |challengeCard| == ChallengeSize
    ensures ComputeServerCryptogram(mac, staticKey, Some(challengeCard)) == ComputeMac(mac, Some(challengeCard), staticKey)
  {
  }

  /** Decrypting a static key does not fix its length: whatever the cipher
      returns is passed on, and only a later 32-byte check can catch it. */
  lemma StaticKeyLengthUnchecked(aes: Cipher, encryptedKey: Bytes, iv: Bytes, masterKey: Bytes, plain: Bytes)
    requires |masterKey| == AesKeySize && |iv| == IvSize
    requires aes(masterKey, iv, encryptedKey) == Some(plain) && |plain| != AesKeySize
    ensures DecryptStaticKey(aes, Some(encryptedKey), Some(iv), Some(masterKey)) == Success(plain)
    ensures forall mac: Mac, cc :: ComputeServerCryptogram(mac, Some(plain), cc) == Failure(IllegalArgument)
  {
  }
}
