# card-server core in Dafny

This project models the decision logic of the MedCard server (`dnd.server`).
The server is a Java backend for staff smart cards and a pharmacy. It covers:

- **Card authentication.** A start → verify → complete handshake. The server sends a
  challenge, checks an RSA signature over it, answers with an HMAC cryptogram, and
  derives session keys with HKDF (RFC 5869). Temporary sessions sit in an
  in-memory store and expire after five minutes. The final session is a row in
  `card_sessions`.
- **Bank callback.** `POST /api/transactions` is a webhook signed with HMAC-SHA256.
  It stores each payment once per idempotency key. Its ref "medcard <id>" links the
  payment to a prescription.
- **Prescription payment.** The endpoints that build the VietQR links for a
  prescription, report whether it is paid, and cancel its payment.
- **Pharmacy stock.** Inventory import and export on the medicine totals, the
  batches and the inventory journal.
- **Card issuing.** The issue counter for a card type.
- **Staff avatars.** Upload of a staff avatar, with its type detected from the
  magic bytes.
- **Shared layers.** Hex and Base64 text, the `Response` and `HttpResponse`
  shapes, the route table of `ApiRouter`, and the bank configuration.

One Dafny module stands for each Java class of that core. A small library of
Java semantics sits beside them:

| module | what it stands for |
|---|---|
| `Wrappers` | `Option`, `Result` and Java exceptions |
| `Text` | `trim`, `split`, `Long.parseLong`, `Long.toString` |
| `Numeric` | narrowing casts and `Double.parseDouble` |
| `Encoding` | UTF-8 and Base64 |
| `Json` | Gson's `getAs...` readers and the `Request` |
| `Paths` | the path splitting every endpoint does |
| `Database` | the tables, as fields of one class |

Where the Java code works by changing state, the model keeps that form:

- The session store, the database tables and the bank configuration are classes,
  and their methods change fields.
- Loops stay loops: hex encoding, the constant-time comparison, the HKDF expand
  loop, the issue-counter scan and the QR account list.
- Each endpoint has a pure `Outcome` (or `Answer`) function that gives the
  response and the tables afterwards.
- Each endpoint's `Handle` method updates a `Database.Db` and is proved equal to
  that function. The lemmas state the endpoint's promises about the function.

Some things are parameters rather than modelled code:

- the cryptographic primitives (HMAC-SHA256, AES-CBC, SHA1withRSA);
- the random number generator (a nondeterministic choice of the right length);
- Gson's serialisation of the callback body;
- the object store that holds avatars;
- the wall clock;
- the database failures the code observes.

The same code is also stated with the code's observable quirks, which lemmas
name outright:

- A signed hex pair is accepted.
- A whitespace-only bank account number is stored as "".
- An empty `HMAC_SECRET` wins.
- A revoked card gets its `last_auth_at` stamped.
- A failed session insert goes unnoticed.
- "medcard 007" is linked to prescription 7 by the callback but does not make it paid.
- An import without a batch number always opens a new batch.
- A batch can go negative.

The bank callback, the prescription endpoints and the avatar upload are modelled
as the handlers they are, given a request. `ApiRouter.registerRoutes` does not
register them (src/main/java/dnd/server/api/ApiRouter.java:29-99).

## Model

| member | source | states |
|---|---|---|
| Hex.Encode | src/main/java/dnd/server/util/HexUtils.java:14-18 | the text has two characters per byte, and byte i is written as its high then low nibble digit at positions 2i and 2i+1 |
| Hex.Digit | src/main/java/dnd/server/util/HexUtils.java:16 | `%02X` prints only `0-9A-F` (and `%02x` only `0-9a-f`), never whitespace |
| Hex.EncodeChar | src/main/java/dnd/server/util/HexUtils.java:14-18 | character k of the text is a digit of byte k/2: the high nibble when k is even, the low one when odd |
| Hex.BytesToHex | src/main/java/dnd/server/util/HexUtils.java:10-19 | `bytesToHex(null)` is the empty string; otherwise the loop produces the upper-case encoding |
| Hex.FormatLowerHex | src/main/java/dnd/server/service/AuthenticationService.java:125-129 | the `%02x` loop produces the lower-case encoding of the bytes |
| Hex.HexToBytes | src/main/java/dnd/server/util/HexUtils.java:24-37 | the array filled pair by pair is the decoding of the input: empty for null or "", IllegalArgumentException for odd stripped length |
| Hex.DigitRoundTrip | src/main/java/dnd/server/util/HexUtils.java:34 | every digit printed for a nibble reads back as that nibble |
| Hex.PairOfDigits | src/main/java/dnd/server/util/HexUtils.java:16-34 | the two digits printed for a byte parse back to that byte, in either case |
| Hex.DecodeEncode | src/main/java/dnd/server/util/HexUtils.java:14-36 | decoding the encoding of any bytes, upper or lower case, gives the bytes back |
| Hex.HexToBytesOfBytesToHex | src/main/java/dnd/server/util/HexUtils.java:10-37 | `hexToBytes(bytesToHex(b)) == b` |
| Hex.EncodeHasNoWhitespace | src/main/java/dnd/server/util/HexUtils.java:16-28 | no character of an encoding is whitespace, so stripping leaves it unchanged |
| Hex.DecodeIgnoresWhitespace | src/main/java/dnd/server/util/HexUtils.java:28 | decoding a text equals decoding it with all whitespace removed ("AB CD" and "ABCD" agree) |
| Hex.DecodeLength | src/main/java/dnd/server/util/HexUtils.java:29-32 | a non-empty text fails with IllegalArgumentException exactly when its stripped length is odd; a success has half the stripped length |
| Hex.DigitValueCaseInsensitive | src/main/java/dnd/server/util/HexUtils.java:34 | `parseInt(_, 16)` gives a digit the same value in either case |
| Hex.RemoveWhitespaceUpper | src/main/java/dnd/server/util/HexUtils.java:28 | stripping whitespace commutes with ASCII upper-casing |
| Hex.PairsUpper | src/main/java/dnd/server/util/HexUtils.java:33-35 | upper-casing leaves the value of every pair unchanged |
| Hex.DecodeCleanUpper | src/main/java/dnd/server/util/HexUtils.java:29-36 | decoding stripped text is insensitive to case |
| Hex.DecodeCaseInsensitive | src/main/java/dnd/server/util/HexUtils.java:24-37 | lower-case input decodes to the same bytes, or the same exception, as its upper-case form |
| Hex.SignedPairQuirk | src/main/java/dnd/server/util/HexUtils.java:34 | a pair with a sign is accepted: "-1" decodes to 0xFF and "+F" to 0x0F |
| HmacUtils.TimingSafeEqual | src/main/java/dnd/server/crypto/HmacUtils.java:41-53 | the accumulating loop returns true exactly when the two (possibly null) strings are equal |
| HmacUtils.HmacSha256Base64 | src/main/java/dnd/server/crypto/HmacUtils.java:23-33 | an empty secret throws IllegalArgumentException and nothing else does; a result is always 44 characters |
| HmacUtils.SignatureDecodes | src/main/java/dnd/server/crypto/HmacUtils.java:26-29 | the signature text Base64-decodes to the HMAC of the UTF-8 secret and payload |
| Kdf.Block | src/main/java/dnd/server/crypto/KeyDerivationFunction.java:48-56 | T(0) is empty and every later block T(i) is one 32-byte HMAC output |
| Kdf.Blocks | src/main/java/dnd/server/crypto/KeyDerivationFunction.java:50-61 | T(1)…T(n) together are exactly 32·n bytes |
| Kdf.BlockCount | src/main/java/dnd/server/crypto/KeyDerivationFunction.java:46 | `(length + 31) / 32` is ceil(length/32): enough blocks, and fewer than one block to spare |
| Kdf.Expand | src/main/java/dnd/server/crypto/KeyDerivationFunction.java:46-63 | OKM has exactly the requested length |
| Kdf.BlocksPrefix | src/main/java/dnd/server/crypto/KeyDerivationFunction.java:50-61 | the first m blocks are a prefix of the first n blocks when m ≤ n |
| Kdf.ExpandPrefix | src/main/java/dnd/server/crypto/KeyDerivationFunction.java:58-60 | for the same key and info, a shorter output is a prefix of a longer one |
| Kdf.HkdfExpand | src/main/java/dnd/server/crypto/KeyDerivationFunction.java:37-64 | a length above 8160 or an empty PRK is IllegalArgumentException; otherwise the array filled block by block is the RFC 5869 OKM, a null info counting as empty |
| Kdf.CopyBlock | src/main/java/dnd/server/crypto/KeyDerivationFunction.java:60 | `arraycopy` writes the first `count` bytes of the block at `offset` and leaves every other byte of `okm` as it was |
| Kdf.EffectiveSalt | src/main/java/dnd/server/crypto/KeyDerivationFunction.java:25-27 | the salt actually used is never empty (a null or empty salt becomes 32 zero bytes) |
| Kdf.Derive | src/main/java/dnd/server/crypto/KeyDerivationFunction.java:18-35 | IllegalArgumentException exactly for a null IKM or a non-positive length, RuntimeException exactly for a length above 8160, otherwise exactly `keyLength` bytes |
| Kdf.Hkdf | src/main/java/dnd/server/crypto/KeyDerivationFunction.java:18-35 | the method returns or throws what `Derive` states |
| Kdf.DefaultSalt | src/main/java/dnd/server/crypto/KeyDerivationFunction.java:25-27 | a null salt, an empty salt and 32 zero bytes derive the same keys |
| Kdf.DerivePrefix | src/main/java/dnd/server/crypto/KeyDerivationFunction.java:46-61 | for valid lengths, the shorter derived key is a prefix of the longer one |
| Kdf.Hkdf32 | src/main/java/dnd/server/crypto/KeyDerivationFunction.java:94-101 | fails (RuntimeException) exactly when the salt is empty; otherwise 32 bytes |
| Kdf.Hkdf32IsOneBlock | src/main/java/dnd/server/crypto/KeyDerivationFunction.java:94-97 | for a non-empty salt, `hkdf32(ikm, salt, info‖0x01)` equals `hkdf(ikm, salt, info, 32)` |
| Kdf.DeriveSessionKeys | src/main/java/dnd/server/crypto/KeyDerivationFunction.java:76-92 | IllegalArgumentException exactly for a static key that is not 32 bytes or a null challenge (lengths of challenges unchecked); otherwise two 32-byte keys |
| Kdf.SessionKeysAreHkdf | src/main/java/dnd/server/crypto/KeyDerivationFunction.java:84-91 | with a 32-byte static key, the keys exist unless both challenges are empty, and are HKDF with salt challengeServer‖challengeCard and info "ENC" or "MAC" |
| Primitives.HmacSha256 | src/main/java/dnd/server/crypto/KeyDerivationFunction.java:66-71 | an empty key is rejected by `SecretKeySpec` (IllegalArgumentException) and only an empty key; otherwise the 32-byte MAC |
| CryptoUtils.DecryptStaticKey | src/main/java/dnd/server/crypto/CryptoUtils.java:35-54 | null arguments, then a master key that is not 32 bytes or an IV that is not 16, are IllegalArgumentException; a cipher failure is RuntimeException; otherwise the cipher's plaintext, of any length |
| CryptoUtils.GenerateChallenge | src/main/java/dnd/server/crypto/CryptoUtils.java:59-64 | the challenge is exactly 32 bytes |
| CryptoUtils.ComputeServerCryptogram | src/main/java/dnd/server/crypto/CryptoUtils.java:70-87 | IllegalArgumentException exactly when the key or the challenge is null or not 32 bytes; otherwise HMAC(staticKey, challengeCard), 32 bytes |
| CryptoUtils.VerifyRsaSignature | src/main/java/dnd/server/crypto/CryptoUtils.java:92-107 | the verifier's boolean; a null or malformed key or signature is RuntimeException, never false |
| CryptoUtils.DecryptWithSession | src/main/java/dnd/server/crypto/CryptoUtils.java:119-141 | IllegalArgumentException exactly for a null or empty ciphertext, a key that is not 32 bytes or an IV that is not 16; otherwise the cipher's answer, its failure a RuntimeException |
| CryptoUtils.ComputeMac | src/main/java/dnd/server/crypto/CryptoUtils.java:146-160 | IllegalArgumentException exactly for null data or a key that is not 32 bytes; otherwise HMAC(macKey, data), 32 bytes |
| CryptoUtils.CryptogramIsMac | src/main/java/dnd/server/crypto/CryptoUtils.java:70-87 | for a 32-byte challenge the server cryptogram and the session MAC of the challenge under the same key agree, failures included |
| CryptoUtils.StaticKeyLengthUnchecked | src/main/java/dnd/server/crypto/CryptoUtils.java:49-73 | a decrypted static key of the wrong length is returned as is, and only the cryptogram's 32-byte check rejects it |
| Sessions.NewSession | src/main/java/dnd/server/service/SessionManager.java:54-60 | the session holds the four given values and its `createdAt` is the construction time |
| Sessions.Lookup | src/main/java/dnd/server/service/SessionManager.java:28-41 | a session is returned exactly when present and at most five minutes old; the map afterwards has lost exactly that id when it had expired, and nothing else |
| Sessions.Store.Put | src/main/java/dnd/server/service/SessionManager.java:24-26 | the map afterwards is the old one with `id` mapped to the session, replacing any earlier entry |
| Sessions.Store.Get | src/main/java/dnd/server/service/SessionManager.java:28-41 | the answer and the new map are those of `Lookup` on the old map |
| Sessions.Store.Remove | src/main/java/dnd/server/service/SessionManager.java:43-45 | the map afterwards is the old one without `id` |
| Sessions.PutThenGet | src/main/java/dnd/server/service/SessionManager.java:24-41 | a stored session is read back unchanged, with no eviction, while its age is at most 300000 ms |
| Sessions.TimeoutBoundary | src/main/java/dnd/server/service/SessionManager.java:35-38 | at exactly 300000 ms the session is returned; at 300001 ms the read returns null and evicts it |
| Sessions.UnknownLeavesStore | src/main/java/dnd/server/service/SessionManager.java:29-32 | reading an unknown id returns null and leaves the map unchanged |
| Sessions.RemoveThenGet | src/main/java/dnd/server/service/SessionManager.java:43-45 | after `removeSession(id)` the id reads as null; removing an absent id changes nothing |
| Sessions.OthersUntouched | src/main/java/dnd/server/service/SessionManager.java:24-45 | put, remove and a read of `id` leave every other key's entry as it was |
| Sessions.RePutKeepsAge | src/main/java/dnd/server/service/SessionManager.java:52-59 | putting back a session that was read does not renew it: it stays readable only while its original `createdAt` is within five minutes |
| Sessions.PutThenRemove | src/main/java/dnd/server/service/SessionManager.java:24-45 | putting and then removing an id forgets both the new and the previous value |
| Sessions.LookupIdempotent | src/main/java/dnd/server/service/SessionManager.java:28-41 | a second read at the same time gives the same answer and changes nothing |
| Sessions.Store.constructor | src/main/java/dnd/server/service/SessionManager.java:12-15 | a new manager holds no session |
| CardKeyDao.FindByCardId | src/main/java/dnd/server/db/CardKeyDao.java:15-18 | a row is found exactly when some row has exactly this card id and status 1, and the row found is such a row of the table |
| CardKeyDao.GetEncryptedStaticKey | src/main/java/dnd/server/db/CardKeyDao.java:20-29 | null exactly when no active card matches; otherwise the pair (encrypted key, IV) of the card found, in that order, each possibly null |
| CardKeyDao.Touched | src/main/java/dnd/server/db/CardKeyDao.java:31-34 | every row with the id gets `last_auth_at = now`, whatever its status; every other row is unchanged |
| CardKeyDao.UpdateLastAuth | src/main/java/dnd/server/db/CardKeyDao.java:31-34 | the card table afterwards is `Touched` of the old table |
| CardKeyDao.InactiveNeverFound | src/main/java/dnd/server/db/CardKeyDao.java:16 | when every row with the id has a status other than 1, neither lookup finds anything |
| CardKeyDao.NoWhitespaceNormalisation | src/main/java/dnd/server/db/CardKeyDao.java:16 | a card stored as "AB CD" is found under "AB CD" but not under "ABCD" |
| CardKeyDao.RevokedCardTouched | src/main/java/dnd/server/db/CardKeyDao.java:32 | a revoked card is stamped all the same and keeps its status |
| CardKeyDao.TouchKeepsLookup | src/main/java/dnd/server/db/CardKeyDao.java:15-34 | stamping a card changes neither whether any id is found nor the keys returned for it |
| AuthService.Start | src/main/java/dnd/server/service/AuthenticationService.java:44-69 | no active card is RuntimeException; otherwise success exactly when the stored key decrypts under MASTER_KEY, giving the challenge, the card's public key and that static key; a decryption failure passes its exception on |
| AuthService.StartAuthentication | src/main/java/dnd/server/service/AuthenticationService.java:44-69 | a success carries a 32-byte challenge and is `Start` on it; whether the call throws does not depend on the challenge |
| AuthService.VerifySignature | src/main/java/dnd/server/service/AuthenticationService.java:74-91 | success exactly when the verifier accepts the signature over challengeServer, and then the value is true; otherwise RuntimeException |
| AuthService.VerifyIgnoresChallengeCard | src/main/java/dnd/server/service/AuthenticationService.java:74-81 | the result is the same for any two card challenges |
| AuthService.SomeSessionId | src/main/java/dnd/server/service/AuthenticationService.java:122-130 | the lower-case hex of 32 zero bytes is a 64-character session id, so the id shape can be met |
| AuthService.GenerateSessionIdHex64 | src/main/java/dnd/server/service/AuthenticationService.java:122-130 | the id is 64 lower-case hex characters, the `%02x` text of some 32 bytes |
| AuthService.SessionSecrets | src/main/java/dnd/server/service/AuthenticationService.java:101-107 | success exactly when the static key and the card challenge are 32 bytes (else IllegalArgumentException); the cryptogram is HMAC(staticKey, challengeCard) and the keys are `deriveSessionKeys`' |
| AuthService.Complete | src/main/java/dnd/server/service/AuthenticationService.java:99-120 | a failure is IllegalArgumentException and writes nothing; a success returns cryptogram, id and keys, stamps the card, and appends one card_sessions row expiring 15 minutes later unless the insert fails |
| AuthService.CompleteAuthentication | src/main/java/dnd/server/service/AuthenticationService.java:99-120 | result and both tables are `Complete`'s for some well-formed 64-character session id |
| AuthService.StartDecryptsUnderMasterKey | src/main/java/dnd/server/service/AuthenticationService.java:52-63 | after a successful start the card had both key columns, a 16-byte IV, and the static key is the AES decryption under the all-0x42 master key |
| AuthService.NullKeyColumnThrows | src/main/java/dnd/server/service/AuthenticationService.java:53-63 | an active card with a NULL key or IV column makes start throw IllegalArgumentException |
| AuthService.CompleteKeysAreHkdf | src/main/java/dnd/server/service/AuthenticationService.java:102-107 | with 32-byte inputs completion succeeds, the cryptogram is HMAC(staticKey, challengeCard) and the keys are HKDF salted with both challenges |
| AuthService.InsertFailureUnnoticed | src/main/java/dnd/server/service/AuthenticationService.java:114-119 | a failed session insert gives the same result and card table as a successful one; only the session row is missing |
| AuthStart.Outcome | src/main/java/dnd/server/endpoints/AuthStartEndpoint.java:34-67 | a missing body or `cardId` is 400 "cardId is required"; the store changes only by one entry under the temporary id, created now, and then the response is 200 with that id and the stored challenge; a failure or non-200 leaves the store unchanged |
| AuthStart.GenerateTempSessionId | src/main/java/dnd/server/endpoints/AuthStartEndpoint.java:69-77 | the id is 32 lower-case hex characters, the `%02x` text of some 16 bytes |
| AuthStart.Handle | src/main/java/dnd/server/endpoints/AuthStartEndpoint.java:34-67 | response and store afterwards are `Outcome`'s for some 32-byte challenge and some 16-byte id source |
| AuthStart.ZeroCardBypass | src/main/java/dnd/server/endpoints/AuthStartEndpoint.java:43-46 | a card id that is one or more '0' once whitespace is removed is answered 200 "Card empty, bypass" with empty data, whatever the card table, and nothing is stored |
| AuthStart.BypassExamples | src/main/java/dnd/server/endpoints/AuthStartEndpoint.java:43-44 | "0 0 0" is bypassed; "" and "   " are not |
| AuthStart.StartStoresOneSession | src/main/java/dnd/server/endpoints/AuthStartEndpoint.java:49-66 | any other id goes raw to `startAuthentication`; the endpoint throws exactly when it does; on success exactly one session is stored under the temporary id (raw card id, static key, public key, challenge, now), and the response's upper-case hex challenge decodes back to the stored one |
| AuthVerify.ReadFields | src/main/java/dnd/server/endpoints/AuthVerifyEndpoint.java:43-45 | the fields read are the session id text and the hex decodings of the signature and card challenge; the read throws exactly when one `getAsString` or `hexToBytes` throws |
| AuthVerify.Handle | src/main/java/dnd/server/endpoints/AuthVerifyEndpoint.java:37-68 | a missing body or field is 400; the store only loses entries, at most one, and only an expired one; the only success payloads are `valid: true` and the two 400s, never `valid: false` |
| AuthVerify.ReadsEncodedFields | src/main/java/dnd/server/endpoints/AuthVerifyEndpoint.java:39-45 | a body built from an id and hex-encoded bytes has all three fields and reads back as that id and those bytes |
| AuthVerify.VerifyDecides | src/main/java/dnd/server/endpoints/AuthVerifyEndpoint.java:48-67 | for a live session the answer is `valid: true` exactly when the verifier accepts the signature over that session's challenge under its public key, a RuntimeException otherwise, and the store is unchanged |
| AuthVerify.ChallengeCardUnused | src/main/java/dnd/server/endpoints/AuthVerifyEndpoint.java:45-59 | two requests that differ only in challengeCard get the same answer and store |
| AuthVerify.UnknownSessionRejected | src/main/java/dnd/server/endpoints/AuthVerifyEndpoint.java:48-51 | an unknown or expired session is 400 "Invalid or expired session" whatever the signature, and an expired entry is evicted |
| AuthComplete.ReadFields | src/main/java/dnd/server/endpoints/AuthCompleteEndpoint.java:47-48 | the fields read are the temporary id text and the hex decoding of the card challenge; the read throws exactly when `getAsString` or `hexToBytes` throws |
| AuthComplete.Outcome | src/main/java/dnd/server/endpoints/AuthCompleteEndpoint.java:41-75 | a missing body or field is 400; sessions are only removed; a 200 consumes the live session the request names and reports the new permanent id; anything else only evicts expired sessions and leaves both tables alone |
| AuthComplete.Handle | src/main/java/dnd/server/endpoints/AuthCompleteEndpoint.java:41-75 | response, store and tables afterwards are `Outcome`'s for some 64-character session id |
| AuthComplete.ReadsEncodedFields | src/main/java/dnd/server/endpoints/AuthCompleteEndpoint.java:43-48 | a body built from an id and a hex-encoded challenge has both fields and reads back as them |
| AuthComplete.LiveSessionOutcome | src/main/java/dnd/server/endpoints/AuthCompleteEndpoint.java:51-74 | a live session is completed with its own card id, static key and server challenge plus the request's card challenge; it is removed only when completion returns |
| AuthComplete.SingleUse | src/main/java/dnd/server/endpoints/AuthCompleteEndpoint.java:51-65 | after a 200, replaying the same request at any time gets 400 "Invalid or expired session" and changes nothing |
| AuthComplete.CompleteWithoutVerify | src/main/java/dnd/server/endpoints/AuthCompleteEndpoint.java:51-62 | a live session with a 32-byte static key and a 32-byte card challenge completes with no record of a verify: 200 with HMAC(staticKey, challengeCard), session consumed, card stamped, session row written unless the insert fails |
| AuthComplete.FailedCompleteKeepsSession | src/main/java/dnd/server/endpoints/AuthCompleteEndpoint.java:57-65 | when completion throws (static key or card challenge not 32 bytes) the result is IllegalArgumentException and the session and both tables are unchanged |
| Handshake.StartThenComplete | src/main/java/dnd/server/endpoints/AuthStartEndpoint.java:49-66 | a successful start followed within five minutes by a completion naming its temporary id with a 32-byte card challenge succeeds with HMAC(static key, card challenge), removes the temporary session, and records start's server challenge in the session row unless the insert fails |
| Handshake.VerifyDoesNotGateComplete | src/main/java/dnd/server/endpoints/AuthCompleteEndpoint.java:51-62 | running any verify request first, whatever its result, leaves complete's answer and tables exactly as completing directly |
| Responses.ToJson | src/main/java/dnd/server/api/Response.java:61-78 | the JSON always has `statusCode`; with an error it has only the error object `{"message": …}`; otherwise `message` and `data` appear exactly when they are not null |
| Responses.FactoryShapes | src/main/java/dnd/server/api/Response.java:29-56 | `success(data)` renders 200 with message "Success", `success(msg, data)` 200 with msg, neither with an error; `notFound`, `badRequest`, `internalError` are `error` with 404, 400, 500 |
| Responses.ErrorShape | src/main/java/dnd/server/api/Response.java:40-67 | an error renders as exactly `statusCode` and `error`, with its own status code |
| Responses.NonNullFields | src/main/java/dnd/server/api/HttpResponse.java:36-40 | the merged fields are exactly the entries of the map whose value is not null, with their values |
| Responses.HttpSuccess | src/main/java/dnd/server/api/HttpResponse.java:25-52 | status 200; a map holding "success" is merged as its non-null entries; anything else has exactly the keys `statusCode` (200), `message` (the message, or null) and `data` (present exactly when not null) |
| Responses.HttpError | src/main/java/dnd/server/api/HttpResponse.java:57-65 | the given status, and a body of exactly `statusCode` and `error: {message}` |
| ApiRouter.SplitKey | src/main/java/dnd/server/api/ApiRouter.java:165 | `split(" ", 2)` gives the text before the first space and the rest (rejoined they are the key), and one part exactly when the key has no space |
| ApiRouter.ParamTakesSegment | src/main/java/dnd/server/api/ApiRouter.java:181-185 | a parameter followed by the end or by '/' matches exactly the path's next segment, which must be non-empty |
| ApiRouter.TokenizeLiterals | src/main/java/dnd/server/api/ApiRouter.java:183 | characters before any ':' are kept as literal characters of the regular expression |
| ApiRouter.MatchLiteralPrefix | src/main/java/dnd/server/api/ApiRouter.java:184 | literal tokens in front of a pattern match exactly the paths starting with them whose rest matches the rest |
| ApiRouter.TokenizeParam | src/main/java/dnd/server/api/ApiRouter.java:183 | `:name` up to the next '/' becomes one `[^/]+` |
| ApiRouter.MatchLiterals | src/main/java/dnd/server/api/ApiRouter.java:184 | a pattern without parameters matches only itself |
| ApiRouter.MatchTrailingParam | src/main/java/dnd/server/api/ApiRouter.java:181-185 | `w:name` matches exactly the paths that start with w and continue with a non-empty text without '/' |
| ApiRouter.MatchInnerParam | src/main/java/dnd/server/api/ApiRouter.java:181-185 | `w:name v`, v starting with '/', matches exactly w, then a non-empty segment, then exactly v |
| ApiRouter.TrailingParamAfter | src/main/java/dnd/server/api/ApiRouter.java:181-185 | `w:name` matches w followed by x exactly when x is non-empty and has no '/' |
| ApiRouter.InnerParamAfter | src/main/java/dnd/server/api/ApiRouter.java:181-185 | `w:name v` matches w followed by x exactly when x is one non-empty segment followed by exactly v |
| ApiRouter.MedicineIdPattern | src/main/java/dnd/server/api/ApiRouter.java:181-185 | "/api/medicines/:id" matches "/api/medicines/" + x exactly when x is non-empty and has no '/', so neither "/api/medicines/" nor "/api/medicines/a/b" |
| ApiRouter.FirstApplicable | src/main/java/dnd/server/api/ApiRouter.java:163-172 | the entry the loop stops at is the first in iteration order whose method equals the request's and whose pattern matches; none exactly when no entry does |
| ApiRouter.FindHandler | src/main/java/dnd/server/api/ApiRouter.java:154-175 | an exact "METHOD path" key wins; otherwise the handler is the first applicable pattern entry in iteration order, or none |
| ApiRouter.NotFoundMeansNoRoute | src/main/java/dnd/server/api/ApiRouter.java:154-175 | when the order lists every key, nothing is found exactly when there is no exact key and no entry applies |
| ApiRouter.RouteHasMethod | src/main/java/dnd/server/api/ApiRouter.java:163-170 | a found handler is registered under a key whose method is the request's |
| ApiRouter.SplitKeyOf | src/main/java/dnd/server/api/ApiRouter.java:156-165 | splitting "METHOD path" with a method without spaces gives back the method and the path |
| ApiRouter.OrderDecides | src/main/java/dnd/server/api/ApiRouter.java:163-170 | when two patterns both apply and there is no exact key, the handler is whichever the iteration order lists first |
| ApiRouter.InCardRoutes | src/main/java/dnd/server/api/ApiRouter.java:79-95 | the card routes, registered last, are in the route table unchanged |
| ApiRouter.StaffKeysNotExact | src/main/java/dnd/server/api/ApiRouter.java:29-98 | no route is registered under "GET /api/cards/staff/keys" itself |
| ApiRouter.StaffKeysMatchesBoth | src/main/java/dnd/server/api/ApiRouter.java:83-84 | the path "/api/cards/staff/keys" is matched both by "/api/cards/staff/:id" (id "keys") and by "/api/cards/:id/keys" (id "staff") |
| ApiRouter.KeysPattern | src/main/java/dnd/server/api/ApiRouter.java:83 | "/api/cards/:id/keys" matches "/api/cards/" + x exactly when x is one non-empty segment followed by "/keys" |
| ApiRouter.Convert | src/main/java/dnd/server/api/ApiRouter.java:140-149 | the HTTP status is the response's; 200 becomes a success with the same message and data; anything else an error with the response's error message, or "Error" when it has none |
| ApiRouter.ConvertError | src/main/java/dnd/server/api/ApiRouter.java:140-149 | every endpoint error reaches the client with its status and message unchanged |
| ApiRouter.Handle | src/main/java/dnd/server/api/ApiRouter.java:104-128 | the method is upper-cased; no handler gives 404 "Endpoint không tồn tại: METHOD path" and runs nothing; a handler exception gives 500 "Lỗi server: …"; otherwise the handler's response, converted |
| ApiRouter.MethodCaseIgnored | src/main/java/dnd/server/api/ApiRouter.java:105 | "get" and "GET" reach the same handler |
| BankConfig.Secret | src/main/java/dnd/server/config/BankConfig.java:62-68 | the property when non-empty; otherwise `HMAC_SECRET` whenever it is set, even to ""; otherwise the system property, or "" |
| BankConfig.Config.constructor | src/main/java/dnd/server/config/BankConfig.java:36-104 | the secret is `Secret` of the inputs, and the accounts are the run read from the properties, or the two defaults when it is empty, so the list is never empty |
| BankConfig.Config.GetAccounts | src/main/java/dnd/server/config/BankConfig.java:110-112 | the returned list equals the configured one and is never empty |
| BankConfig.ReadAccounts | src/main/java/dnd/server/config/BankConfig.java:75-86 | the loop collects one trimmed account per index 1, 2, … in order, up to the first index whose number or name is missing or empty |
| BankConfig.NumberKeyInjective | src/main/java/dnd/server/config/BankConfig.java:77 | distinct indices give distinct property keys |
| BankConfig.NumberKeysCount | src/main/java/dnd/server/config/BankConfig.java:77 | the keys of indices 1..n are n distinct strings |
| BankConfig.NumberKeysCounted | src/main/java/dnd/server/config/BankConfig.java:76-86 | if indices 1..n are all present the file has at least n keys, so the loop terminates |
| BankConfig.AccountRunUnique | src/main/java/dnd/server/config/BankConfig.java:75-86 | the accounts read are determined by the properties |
| BankConfig.LaterIndicesIgnored | src/main/java/dnd/server/config/BankConfig.java:80-82 | changing any key beyond the first gap leaves the accounts read unchanged |
| BankConfig.BlankValueStoredEmpty | src/main/java/dnd/server/config/BankConfig.java:80-84 | a whitespace-only number passes the emptiness check and is stored as "" |
| BankConfig.AccountsNeverEmpty | src/main/java/dnd/server/config/BankConfig.java:89-93 | the configured list is never empty, and is exactly the two defaults when there is no account 1 |
| BankConfig.EmptyEnvSecretWins | src/main/java/dnd/server/config/BankConfig.java:62-67 | with no secret property, `HMAC_SECRET=""` makes the secret "" whatever the system property says |
| BankConfig.RunPrefixExtends | src/main/java/dnd/server/config/BankConfig.java:76-85 | appending the account of the next present index keeps the list a run of the properties' entries |
| BankConfig.RunPrefixBounded | src/main/java/dnd/server/config/BankConfig.java:76-86 | a run followed by a present index is shorter than the key count, so the loop's variant stays positive |
| BankConfig.RunPrefixIsRun | src/main/java/dnd/server/config/BankConfig.java:75-86 | a run whose next index is not present is the complete account run the loop returns |
| TransactionEndpoint.ReadCallback | src/main/java/dnd/server/endpoints/TransactionEndpoint.java:84-120 | a callback that passes validation has non-empty bankId, ref and idempotencyKey, a positive timestamp, and an amount that is the (long) cast of the JSON number, between 0 and Long.MAX_VALUE |
| TransactionEndpoint.FindByKey | src/main/java/dnd/server/endpoints/TransactionEndpoint.java:126-128 | a row is found exactly when some stored row carries the idempotency key, and the row found is a stored row with that key |
| TransactionEndpoint.RefPrescriptionId | src/main/java/dnd/server/endpoints/TransactionEndpoint.java:147-157 | a ref names a prescription exactly when it starts with "medcard " and the trimmed rest parses as a long; the id is in the long range |
| TransactionEndpoint.Record | src/main/java/dnd/server/endpoints/TransactionEndpoint.java:125-201 | a stored key that the read finds answers "Duplicate" with the stored id and writes nothing; when the read fails, a stored key (the unique index refuses the insert) or a failed insert answers 500 and writes nothing; otherwise one row is appended under the next id, followed by the audit row and the system-log row (unless lost), each with `playerId` as its staff id, and "OK"/"processed" is answered; keys stay unique |
| TransactionEndpoint.Outcome | src/main/java/dnd/server/endpoints/TransactionEndpoint.java:55-201 | no table changes and no 200 unless the signature header is present, the secret set, the body present and the HMAC authentic (and, for a change, the fields valid); keys stay unique |
| TransactionEndpoint.RecordCallback | src/main/java/dnd/server/endpoints/TransactionEndpoint.java:125-201 | the idempotency check, insert and log writes on the database leave the response and tables that Record describes |
| TransactionEndpoint.Handle | src/main/java/dnd/server/endpoints/TransactionEndpoint.java:55-201 | the endpoint on the database answers and updates the tables as Outcome describes |
| TransactionEndpoint.GuardOrder | src/main/java/dnd/server/endpoints/TransactionEndpoint.java:57-82 | missing or blank signature gives 401, empty secret 500, no body 400, a wrong signature 401, in that order, each with the tables untouched |
| TransactionEndpoint.ReplayIsDuplicate | src/main/java/dnd/server/endpoints/TransactionEndpoint.java:125-145 | delivering the same authentic callback twice processes it once under the next id; the second delivery answers "duplicate" with that id, or 500 when its idempotency read fails, and writes nothing either way |
| TransactionEndpoint.FindAfterAppend | src/main/java/dnd/server/endpoints/TransactionEndpoint.java:126-127 | after an append the lookup finds the earlier row with the key if any, else the appended row if it carries the key |
| TransactionEndpoint.ExistingKeyWins | src/main/java/dnd/server/endpoints/TransactionEndpoint.java:126-145 | a stored key that the read finds wins over differing bank id, amount or ref; when the read fails a stored key is a 500; a failed insert is a 500, never a duplicate; none of these writes |
| TransactionEndpoint.PassedGuards | src/main/java/dnd/server/endpoints/TransactionEndpoint.java:55-145 | a request passing every guard and validation is answered by Record on its callback |
| TransactionEndpoint.StoppedByGuards | src/main/java/dnd/server/endpoints/TransactionEndpoint.java:57-115 | a request stopped by a guard or validation leaves the tables unchanged, whatever the database would do |
| TransactionEndpoint.SideWritesDoNotMatter | src/main/java/dnd/server/endpoints/TransactionEndpoint.java:159-195 | losing the audit or system-log write changes neither the response nor the transactions table |
| TransactionEndpoint.SubUnitAmountStoredAsZero | src/main/java/dnd/server/endpoints/TransactionEndpoint.java:93-97 | a positive amount below one passes the positivity check and is stored as 0 by the (long) cast |
| TransactionEndpoint.MedcardRefRoundTrip | src/main/java/dnd/server/endpoints/TransactionEndpoint.java:149-152 | the ref "medcard " followed by the decimal of a long names that long |
| TransactionEndpoint.DecimalHasNoBlanks | src/main/java/dnd/server/endpoints/TransactionEndpoint.java:151 | a decimal numeral has no trimmable character at either end, so trimming leaves it intact |
| Database.NextId | src/main/java/dnd/server/endpoints/TransactionEndpoint.java:141 | the auto-increment id handed to a new row is at least 1 and larger than every id in the table, so it names the new row only |
| PrescriptionQr.Percent | src/main/java/dnd/server/endpoints/GetPrescriptionQrEndpoint.java:73-75 | each byte becomes three URL-safe characters |
| PrescriptionQr.EncodeChar | src/main/java/dnd/server/endpoints/GetPrescriptionQrEndpoint.java:73-75 | a character encodes to URL-safe characters only |
| PrescriptionQr.UrlEncode | src/main/java/dnd/server/endpoints/GetPrescriptionQrEndpoint.java:73-75 | URLEncoder output never holds '&', '=', '?', '#' or a space |
| PrescriptionQr.Entries | src/main/java/dnd/server/endpoints/GetPrescriptionQrEndpoint.java:64-83 | one entry per configured account, in order, each the account's number, name and link |
| PrescriptionQr.Answer | src/main/java/dnd/server/endpoints/GetPrescriptionQrEndpoint.java:37-98 | a bad path gives 400 "Invalid path format", a non-long id 400 "Invalid prescription ID", an unknown id 404; 200 exactly when the id names a stored prescription |
| PrescriptionQr.QrAccounts | src/main/java/dnd/server/endpoints/GetPrescriptionQrEndpoint.java:64-83 | the loop yields one entry per account, in order |
| PrescriptionQr.Handle | src/main/java/dnd/server/endpoints/GetPrescriptionQrEndpoint.java:37-98 | the endpoint on the database and configuration answers as Answer does, writing nothing |
| PrescriptionQr.UrlEncodeOfUnreserved | src/main/java/dnd/server/endpoints/GetPrescriptionQrEndpoint.java:73-75 | text made of unreserved characters is left unchanged |
| PrescriptionQr.UrlEncodeAppend | src/main/java/dnd/server/endpoints/GetPrescriptionQrEndpoint.java:73-75 | encoding a concatenation is the concatenation of the encodings |
| PrescriptionQr.DecimalIsUnreserved | src/main/java/dnd/server/endpoints/GetPrescriptionQrEndpoint.java:61 | the decimal of a prescription id is made of unreserved characters |
| PrescriptionQr.EncodedPrefix | src/main/java/dnd/server/endpoints/GetPrescriptionQrEndpoint.java:74 | "medcard " encodes as "medcard+" |
| PrescriptionQr.EncodedQrContent | src/main/java/dnd/server/endpoints/GetPrescriptionQrEndpoint.java:61-74 | the transfer text travels as "medcard+" followed by the id's decimal |
| PrescriptionQr.NoAmpersand | src/main/java/dnd/server/endpoints/GetPrescriptionQrEndpoint.java:73-75 | no encoded value holds '&' |
| PrescriptionQr.LiteralsHaveNoAmpersand | src/main/java/dnd/server/endpoints/GetPrescriptionQrEndpoint.java:72 | the fixed parts of the link template hold no '&' of their own between parameters |
| PrescriptionQr.EncodedBetween | src/main/java/dnd/server/endpoints/GetPrescriptionQrEndpoint.java:71-76 | an encoded value between '&'-free pieces adds no '&' |
| PrescriptionQr.SplitThree | src/main/java/dnd/server/endpoints/GetPrescriptionQrEndpoint.java:71-76 | three '&'-free pieces joined by '&' split back into exactly those pieces |
| PrescriptionQr.QueryCannotBeInjected | src/main/java/dnd/server/endpoints/GetPrescriptionQrEndpoint.java:71-76 | the link splits on '&' into exactly the image path, addInfo with the encoded transfer text and accountName with the encoded name, whatever the account name holds |
| PrescriptionQr.QrContentNamesPrescription | src/main/java/dnd/server/endpoints/GetPrescriptionQrEndpoint.java:61 | the transfer text is a ref the bank callback links back to the same prescription id |
| PrescriptionQr.QrOfStoredPrescription | src/main/java/dnd/server/endpoints/GetPrescriptionQrEndpoint.java:85-97 | for a stored prescription the 200 carries its id, the transfer text, the first account's number, name and link as default, and one entry per account in order |
| PrescriptionQr.QrDataFields | src/main/java/dnd/server/endpoints/GetPrescriptionQrEndpoint.java:86-95 | the payload's default fields are those of the first entry and qrAccounts holds every entry |
| PaymentStatus.Latest | src/main/java/dnd/server/endpoints/GetPrescriptionPaymentStatusEndpoint.java:54-58 | a row is found exactly when some transaction carries the ref; it carries the ref and no matching row is newer |
| PaymentStatus.Handle | src/main/java/dnd/server/endpoints/GetPrescriptionPaymentStatusEndpoint.java:30-73 | bad path 400, non-long id 400, unknown prescription or failed prescription read 404; 200 exactly for a stored prescription whose read succeeds, and a 200 reports "paid" or "pending" only |
| PaymentStatus.StatusPathReadsBack | src/main/java/dnd/server/endpoints/GetPrescriptionPaymentStatusEndpoint.java:33-44 | the path /api/prescriptions/<id>/payment-status reads back as that id |
| PaymentStatus.PaidIffPaymentRef | src/main/java/dnd/server/endpoints/GetPrescriptionPaymentStatusEndpoint.java:53-70 | a stored prescription is "paid" exactly when the transactions read succeeds and some transaction's ref is "medcard <id>", then with the id of a newest such transaction; otherwise "pending" |
| PaymentStatus.FailedLookupIsNotFound | src/main/java/dnd/server/endpoints/GetPrescriptionPaymentStatusEndpoint.java:46-51 | when the prescription read fails, a stored prescription is answered 404 "Prescription not found" |
| PaymentStatus.PaddedRefNotPaid | src/main/java/dnd/server/endpoints/GetPrescriptionPaymentStatusEndpoint.java:54-58 | a transaction with ref "medcard 007" is linked to prescription 7 by the callback yet leaves it "pending" here |
| PaymentStatus.OtherRefPending | src/main/java/dnd/server/endpoints/GetPrescriptionPaymentStatusEndpoint.java:53-70 | a stored prescription none of whose transactions has ref "medcard <id>" is reported "pending" |
| PaymentStatus.PaddedRefParses | src/main/java/dnd/server/endpoints/TransactionEndpoint.java:147-157 | the callback reads "medcard 007" as prescription 7 |
| PaymentStatus.PaddedRefIsNotPaymentRef | src/main/java/dnd/server/endpoints/GetPrescriptionPaymentStatusEndpoint.java:54 | "medcard 007" is not the ref the status query looks for prescription 7 |
| PaymentStatus.RecordedCallbackPays | src/main/java/dnd/server/endpoints/GetPrescriptionPaymentStatusEndpoint.java:53-70 | after a new bank callback with ref "medcard <id>" is recorded, the prescription reports "paid", or "pending" when the status endpoint's transactions read fails |
| CancelPayment.Outcome | src/main/java/dnd/server/endpoints/CancelPrescriptionPaymentEndpoint.java:33-113 | bad path and bad id give their messages; an unknown prescription or a failed prescription read gives 404; a payment the read sees gives 400; any non-200 writes nothing; a 200 or an exception only for a stored prescription not in status 3 or 2 and with no payment seen, whose status alone becomes 3; a failed read-back after the UPDATE throws NullPointerException and writes no log |
| CancelPayment.FindPayment | src/main/java/dnd/server/endpoints/CancelPrescriptionPaymentEndpoint.java:59-61 | the lookup finds a row exactly when some transaction carries the ref |
| CancelPayment.Handle | src/main/java/dnd/server/endpoints/CancelPrescriptionPaymentEndpoint.java:33-113 | the endpoint on the database answers and updates the tables as Outcome describes |
| CancelPayment.PaymentBlocksCancel | src/main/java/dnd/server/endpoints/CancelPrescriptionPaymentEndpoint.java:58-67 | a paid prescription is refused as already paid whatever its status, with nothing written, when the reads succeed; when the payment read fails, a paid prescription in a cancellable status is cancelled |
| CancelPayment.StatusMachine | src/main/java/dnd/server/endpoints/CancelPrescriptionPaymentEndpoint.java:69-113 | when no payment is seen, status 3 and 2 are final with their messages; any other status is cancelled exactly when the update hits the row, else 500; the request throws exactly when the read-back fails |
| CancelPayment.CancelTwice | src/main/java/dnd/server/endpoints/CancelPrescriptionPaymentEndpoint.java:69-72 | after a request that changed the tables, a second request writes nothing and gets 400, or 404 when its prescription read fails; it is "already cancelled" unless a payment is seen or the read fails |
| CancelPayment.CancelPathReadsBack | src/main/java/dnd/server/endpoints/CancelPrescriptionPaymentEndpoint.java:35-48 | the path /api/prescriptions/<id>/cancel-payment has the five segments required and names that id |
| Inventory.AddToMedicine | src/main/java/dnd/server/endpoints/ImportInventoryEndpoint.java:54-55 | the medicine's total gains the delta, an unknown code changes nothing, other totals are untouched |
| Inventory.AddToBatch | src/main/java/dnd/server/endpoints/ImportInventoryEndpoint.java:49-50 | the batch with the id gains the delta; every other batch is untouched |
| Inventory.FindBatch | src/main/java/dnd/server/endpoints/ImportInventoryEndpoint.java:38-39 | a batch is found exactly when the batch number is given and a batch of the medicine carries it; SQL's comparison with NULL never matches |
| Inventory.Receive | src/main/java/dnd/server/endpoints/ImportInventoryEndpoint.java:37-59 | the batch found gains the quantity, or a new batch under the next id holds it; the total gains it; one type-0 log row naming that batch's id is appended |
| Inventory.ImportOutcome | src/main/java/dnd/server/endpoints/ImportInventoryEndpoint.java:21-62 | no body gives 400; success exactly when the fields read and are valid (code and staff present, quantity positive); success applies Receive with the batch read's outcome, anything else writes nothing |
| Inventory.Import | src/main/java/dnd/server/endpoints/ImportInventoryEndpoint.java:21-62 | the endpoint on the database answers and updates the tables as ImportOutcome describes |
| Inventory.Issue | src/main/java/dnd/server/endpoints/ExportInventoryEndpoint.java:51-63 | the total loses the quantity, the named batch (if any) loses it, one type-1 log row with the negated quantity is appended |
| Inventory.ExportOutcome | src/main/java/dnd/server/endpoints/ExportInventoryEndpoint.java:22-66 | no body gives 400; success exactly when the fields are valid, the medicine exists and its total covers the quantity; success applies Issue, anything else writes nothing |
| Inventory.Export | src/main/java/dnd/server/endpoints/ExportInventoryEndpoint.java:22-66 | the endpoint on the database answers and updates the tables as ExportOutcome describes |
| Inventory.TotalsStayNonNegative | src/main/java/dnd/server/endpoints/ExportInventoryEndpoint.java:46-49 | starting from non-negative totals, neither an import nor an export makes a total negative |
| Inventory.ImportThenExportRestores | src/main/java/dnd/server/endpoints/ExportInventoryEndpoint.java:46-53 | importing a quantity of a stocked medicine and exporting the same quantity succeeds and restores every total |
| Inventory.ReceiveThenIssue | src/main/java/dnd/server/endpoints/ImportInventoryEndpoint.java:54-55 | after receiving a quantity the total covers it, and issuing it restores the totals |
| Inventory.NoBatchNumberOpensNewBatch | src/main/java/dnd/server/endpoints/ImportInventoryEndpoint.java:38-45 | an import without a batch number opens a new batch each time, even when repeated |
| Inventory.FailedBatchReadOpensSecondBatch | src/main/java/dnd/server/endpoints/ImportInventoryEndpoint.java:38-45 | when the batch read fails, an import of an existing batch opens a second batch with the same code and number |
| Inventory.BatchCanGoNegative | src/main/java/dnd/server/endpoints/ExportInventoryEndpoint.java:56-59 | a valid export covered by the total can drive the named batch to a negative quantity |
| IssueCounter.Counter16 | src/main/java/dnd/server/endpoints/GetIssueCounterEndpoint.java:50 | bytes 2..3 read unsigned lie in 0..65535 and read as a short are the same number below 0x8000 and 65536 less from 0x8000 up, always in -32768..32767 |
| IssueCounter.ActiveCards | src/main/java/dnd/server/endpoints/GetIssueCounterEndpoint.java:39-40 | exactly the cards with status 1 |
| IssueCounter.Contribution | src/main/java/dnd/server/endpoints/GetIssueCounterEndpoint.java:44-54 | a row contributes a counter only through a long-enough decodable id of the type, within the 16-bit range read |
| IssueCounter.Counters | src/main/java/dnd/server/endpoints/GetIssueCounterEndpoint.java:43-59 | one contribution per row |
| IssueCounter.CountersAt | src/main/java/dnd/server/endpoints/GetIssueCounterEndpoint.java:43-59 | the i-th contribution is that of the i-th row |
| IssueCounter.MaxOf | src/main/java/dnd/server/endpoints/GetIssueCounterEndpoint.java:42-53 | the maximum is non-negative, at least every counter, and either 0 or one of them |
| IssueCounter.MaxCounter | src/main/java/dnd/server/endpoints/GetIssueCounterEndpoint.java:42-59 | the largest counter of the type is within the short range and every counter lies below it plus one |
| IssueCounter.CardTypeOf | src/main/java/dnd/server/endpoints/GetIssueCounterEndpoint.java:26-36 | a card type read from the path is a byte |
| IssueCounter.Reply | src/main/java/dnd/server/endpoints/GetIssueCounterEndpoint.java:61-68 | for a short maximum the answer is 200 with one more, except 32767 wraps to -32768 |
| IssueCounter.NextCounterResponse | src/main/java/dnd/server/endpoints/GetIssueCounterEndpoint.java:42-68 | the answer is 200 with a short counter above every counter in use, unless one holds 32767 and the answer has wrapped to -32768 |
| IssueCounter.Answer | src/main/java/dnd/server/endpoints/GetIssueCounterEndpoint.java:23-69 | too few segments gives 400 "cardType is required", a non-byte type 400 "Invalid cardType", otherwise the next counter over the active cards |
| IssueCounter.ReadCounter | src/main/java/dnd/server/endpoints/GetIssueCounterEndpoint.java:44-58 | one pass of the loop body yields the row's contribution |
| IssueCounter.ScanMax | src/main/java/dnd/server/endpoints/GetIssueCounterEndpoint.java:42-59 | the loop computes the largest counter of the type |
| IssueCounter.Next | src/main/java/dnd/server/endpoints/GetIssueCounterEndpoint.java:38-68 | the scan over the active cards answers NextCounterResponse |
| IssueCounter.Handle | src/main/java/dnd/server/endpoints/GetIssueCounterEndpoint.java:23-69 | the endpoint on the database answers as Answer does |
| IssueCounter.IntendedReply | src/main/java/dnd/server/endpoints/GetIssueCounterEndpoint.java:61-68 | read unsigned, a maximum below 65535 answers one more and 65535 answers the overflow error |
| IssueCounter.IntendedNextCounterResponse | src/main/java/dnd/server/endpoints/GetIssueCounterEndpoint.java:42-68 | read unsigned, the answer is above every counter in use and the overflow error comes exactly when a card holds 65535 |
| IssueCounter.IntendedAnswer | src/main/java/dnd/server/endpoints/GetIssueCounterEndpoint.java:23-69 | the corrected endpoint differs from the written one only in the counter arithmetic |
| IssueCounter.CounterPathReadsBack | src/main/java/dnd/server/endpoints/GetIssueCounterEndpoint.java:26-36 | the path /api/cards/issue-counter/<type> reads back as that byte |
| IssueCounter.FirstCounterIsOne | src/main/java/dnd/server/endpoints/GetIssueCounterEndpoint.java:42-67 | with no card of the type in use, the first counter is 1 |
| IssueCounter.CardCounter | src/main/java/dnd/server/endpoints/GetIssueCounterEndpoint.java:48-50 | a card of type 1 contributes the counter held in its bytes 2..3 |
| IssueCounter.TwoCards | src/main/java/dnd/server/endpoints/GetIssueCounterEndpoint.java:43-59 | the counters read from cards 7F FF and 80 00, signed and unsigned |
| IssueCounter.CounterRepeatsAfterWrap | src/main/java/dnd/server/endpoints/GetIssueCounterEndpoint.java:50-67 | after a card with counter 0x7FFF the answer is -32768 twice in a row, while the unsigned reading answers 32768 then 32769 |
| StaffAvatar.DetectType | src/main/java/dnd/server/endpoints/UploadStaffAvatarEndpoint.java:95-112 | PNG exactly for the four-byte PNG signature, GIF exactly for "GIF" in a buffer of four or more bytes, JPEG otherwise, including every buffer shorter than four bytes |
| StaffAvatar.ReadAvatar | src/main/java/dnd/server/endpoints/UploadStaffAvatarEndpoint.java:71-83 | an absent body means no avatar; decoded data is what the base64 text decodes to |
| StaffAvatar.Store | src/main/java/dnd/server/endpoints/UploadStaffAvatarEndpoint.java:71-134 | each refusal (not base64, missing or empty, over 51200 bytes, store failure) gives its 400 and changes nothing; an upload call is made exactly for 1 to 51200 bytes and carries the detected type's object name, the bytes and the content type; 200 exactly when that upload answers a URL, which then becomes the staff member's avatar URL |
| StaffAvatar.Outcome | src/main/java/dnd/server/endpoints/UploadStaffAvatarEndpoint.java:49-134 | a missing or blank staff id gives 400, an unknown staff member 404, both before the body is read; otherwise the body is stored as Store describes |
| StaffAvatar.Handle | src/main/java/dnd/server/endpoints/UploadStaffAvatarEndpoint.java:49-134 | the endpoint on the database answers, calls the store and updates avatar URLs as Outcome describes |
| StaffAvatar.StoreAvatar | src/main/java/dnd/server/endpoints/UploadStaffAvatarEndpoint.java:71-134 | the body-handling part on the database behaves as Store describes |
| StaffAvatar.StaffIdReadsBack | src/main/java/dnd/server/endpoints/UploadStaffAvatarEndpoint.java:53-58 | the path /api/staff/<id>/avatar reads back as that id |
| StaffAvatar.AvatarRequestReadsBack | src/main/java/dnd/server/endpoints/UploadStaffAvatarEndpoint.java:58-83 | a request carrying non-empty bytes as base64 reads back its staff id and exactly those bytes |
| StaffAvatar.UploadRoundTrip | src/main/java/dnd/server/endpoints/UploadStaffAvatarEndpoint.java:85-134 | 1 to 51200 bytes for a known staff member reach the store byte for byte, and a returned URL is reported with the size and stored; more than 51200 bytes are refused with nothing uploaded or changed |
| StaffAvatar.UnknownStaffFirst | src/main/java/dnd/server/endpoints/UploadStaffAvatarEndpoint.java:64-83 | an unknown staff member is refused with 404 even when reading the avatar would throw |
| StaffAvatar.ShortPrefixIsJpeg | src/main/java/dnd/server/endpoints/UploadStaffAvatarEndpoint.java:95-112 | a three-byte GIF or JPEG prefix is stored as JPEG; four bytes starting "GIF" are GIF |
| Json.AsString | src/main/java/dnd/server/endpoints/TransactionEndpoint.java:85 | a JSON string reads as its text; getAsString throws exactly on a non-primitive that is not a one-element array of a readable primitive |
| Json.AsDouble | src/main/java/dnd/server/endpoints/TransactionEndpoint.java:93 | a number reads as its value; a string reads exactly when Double.parseDouble accepts it |
| Json.AsLong | src/main/java/dnd/server/endpoints/TransactionEndpoint.java:107 | a result lies in the long range; a number is truncated toward zero and wrapped to 64 bits |
| Json.ReadLong | src/main/java/dnd/server/endpoints/TransactionEndpoint.java:107 | a string read through Long.parseLong lies in the long range |
| Json.AsInt | src/main/java/dnd/server/endpoints/ImportInventoryEndpoint.java:29 | a result lies in the int range; a number is truncated toward zero and wrapped to 32 bits |
| Json.ReadInt | src/main/java/dnd/server/endpoints/ImportInventoryEndpoint.java:29 | a string read through Integer.parseInt lies in the int range |
| Json.StringField | src/main/java/dnd/server/endpoints/ImportInventoryEndpoint.java:27-31 | an absent key reads as null; a present key reads exactly when getAsString succeeds, and as its text |
| Json.NonNullStringField | src/main/java/dnd/server/endpoints/TransactionEndpoint.java:117-120 | an absent or JSON-null key reads as null; otherwise the field reads as getAsString does, including its exception |
| Json.IntFieldOrZero | src/main/java/dnd/server/endpoints/ImportInventoryEndpoint.java:29 | an absent key reads as 0, a present one as getAsInt |
| Json.NonNullLongField | src/main/java/dnd/server/endpoints/ExportInventoryEndpoint.java:29-32 | an absent or JSON-null key reads as null; otherwise as getAsLong |
| Json.DecimalStringReadsBack | src/main/java/dnd/server/endpoints/TransactionEndpoint.java:93-107 | a string holding the decimal of a long reads back as that long through getAsLong and getAsDouble |
| Json.IntegralNumberReadsBack | src/main/java/dnd/server/endpoints/TransactionEndpoint.java:107 | an integral number in the long range reads back unchanged |
| Json.NumberTruncates | src/main/java/dnd/server/endpoints/TransactionEndpoint.java:107 | a number in the long range is truncated toward zero, never rounded |
| Json.IntOverflowWraps | src/main/java/dnd/server/endpoints/ImportInventoryEndpoint.java:29 | 2^31 read with getAsInt wraps to Integer.MIN_VALUE |
| Json.SingletonArrayReadsThrough | src/main/java/dnd/server/endpoints/TransactionEndpoint.java:85 | a one-element array reads as its element |
| Numeric.WrapLong | src/main/java/dnd/server/endpoints/TransactionEndpoint.java:107 | the low 64 bits read signed: in the long range and congruent modulo 2^64 |
| Numeric.WrapInt | src/main/java/dnd/server/endpoints/ImportInventoryEndpoint.java:29 | the low 32 bits read signed: in the int range and congruent modulo 2^32 |
| Numeric.WrapShort | src/main/java/dnd/server/endpoints/GetIssueCounterEndpoint.java:67 | the low 16 bits read signed: in the short range and congruent modulo 2^16 |
| Numeric.WrapInRange | src/main/java/dnd/server/endpoints/GetIssueCounterEndpoint.java:67 | an in-range value is unchanged by each wrap |
| Numeric.ShortIncrement | src/main/java/dnd/server/endpoints/GetIssueCounterEndpoint.java:67 | (short)(n + 1) is n + 1 except that 32767 becomes -32768 |
| Numeric.TruncToZero | src/main/java/dnd/server/endpoints/TransactionEndpoint.java:97 | the result is the integer next to the value on the side of zero |
| Numeric.DoubleToLong | src/main/java/dnd/server/endpoints/TransactionEndpoint.java:97 | the (long) cast lies in the long range and truncates an in-range finite value toward zero |
| Numeric.CastOfPositive | src/main/java/dnd/server/endpoints/TransactionEndpoint.java:94-97 | a double that passes the positivity check casts to a non-negative long, to 0 exactly when NaN or below one |
| Numeric.ParseDoubleOfDecimal | src/main/java/dnd/server/endpoints/TransactionEndpoint.java:93 | Double.parseDouble reads the decimal of an integer back exactly |
| Text.Trim | src/main/java/dnd/server/endpoints/UploadStaffAvatarEndpoint.java:59 | trim never lengthens and leaves no trimmable character at either end |
| Text.TrimOfTrimmed | src/main/java/dnd/server/endpoints/TransactionEndpoint.java:151 | a string with visible characters at both ends is unchanged by trim |
| Text.UpperAscii | src/main/java/dnd/server/api/ApiRouter.java:105 | the ASCII letters a-z are upper-cased in place; every other character and the length are kept |
| Text.RemoveWhitespace | src/main/java/dnd/server/util/HexUtils.java:28 | removing whitespace leaves no whitespace and never lengthens |
| Text.RemoveWhitespaceOfClean | src/main/java/dnd/server/util/HexUtils.java:28 | a string without whitespace is unchanged |
| Text.RemoveWhitespaceAppend | src/main/java/dnd/server/util/HexUtils.java:28 | removing whitespace distributes over concatenation |
| Text.Split | src/main/java/dnd/server/endpoints/GetPrescriptionQrEndpoint.java:40 | String.split returns an input without the separator whole and never yields a piece holding the separator |
| Text.SplitAll | src/main/java/dnd/server/endpoints/GetPrescriptionQrEndpoint.java:40 | splitting yields at least one piece, none holding the separator |
| Text.DropTrailingEmpty | src/main/java/dnd/server/endpoints/GetPrescriptionQrEndpoint.java:40 | the trailing empty pieces dropped by String.split are exactly the ones removed |
| Text.ParseSigned | src/main/java/dnd/server/endpoints/GetIssueCounterEndpoint.java:33 | a number parsed by Long.parseLong, Integer.parseInt or Byte.parseByte lies in that type's range |
| Text.ParseLongOfDecimal | src/main/java/dnd/server/endpoints/TransactionEndpoint.java:152 | Long.parseLong reads Long.toString of every long back |
| Text.DecimalOfInjective | src/main/java/dnd/server/endpoints/GetPrescriptionQrEndpoint.java:61 | distinct ids have distinct decimal renderings, so distinct transfer texts |
| Paths.IdBefore | src/main/java/dnd/server/endpoints/GetPrescriptionQrEndpoint.java:40-51 | a bad format exactly when too few segments or a wrong last segment; otherwise the long before it, or the text that is not one |
| Paths.SegmentsOfJoin | src/main/java/dnd/server/endpoints/UploadStaffAvatarEndpoint.java:53-58 | splitting a joined path gives back its segments after a leading empty one |
| Paths.IdBeforeOfJoin | src/main/java/dnd/server/endpoints/GetPrescriptionQrEndpoint.java:40-51 | a registered path with a long written in decimal before its last segment reads back as that long |
| Paths.IdBeforeOfParts | src/main/java/dnd/server/endpoints/GetPrescriptionQrEndpoint.java:40-51 | a path with enough segments, the expected last segment and a long's text before it reads as that long |
| Paths.IdBeforeOfJoinedText | src/main/java/dnd/server/endpoints/GetPrescriptionQrEndpoint.java:40-51 | a joined path whose second-to-last segment parses as a long reads as that long |
| Encoding.Utf8 | src/main/java/dnd/server/crypto/HmacUtils.java:26-28 | UTF-8 takes one to four bytes per character |
| Encoding.Utf8OfAscii | src/main/java/dnd/server/crypto/HmacUtils.java:26-28 | on ASCII text UTF-8 is the character codes |
| Encoding.Utf8Append | src/main/java/dnd/server/crypto/HmacUtils.java:28 | UTF-8 distributes over concatenation |
| Encoding.Encode | src/main/java/dnd/server/crypto/HmacUtils.java:29 | Base64 output has four characters per started group of three bytes, all from the alphabet or '=' |
| Encoding.EncodeDigestLength | src/main/java/dnd/server/crypto/HmacUtils.java:29 | a 32-byte digest encodes to 44 characters ending in '=' |
| Encoding.Decode | src/main/java/dnd/server/endpoints/UploadStaffAvatarEndpoint.java:78-80 | the decoder accepts exactly Base64 alphabet characters followed either by no padding (when the count mod 4 is not 1), by "==" after 4k+2 characters, or by "=" after 4k+3 characters |
| Encoding.DecodeEncode | src/main/java/dnd/server/endpoints/UploadStaffAvatarEndpoint.java:78 | decoding an encoding gives back the bytes |
| Encoding.DecodeRejectsForeign | src/main/java/dnd/server/endpoints/UploadStaffAvatarEndpoint.java:78-80 | a character outside the alphabet and padding makes decoding fail |

## Where the code and its documentation differ

The model follows the code in each of these cases:

- `BankConfig` takes `HMAC_SECRET` from the environment whenever the variable is set, even to "". It is not "the first non-empty source" (src/main/java/dnd/server/config/BankConfig.java:62-67; `BankConfig.EmptyEnvSecretWins`).
- `startAuthentication` looks up the card id as received, not with its whitespace removed (src/main/java/dnd/server/endpoints/AuthStartEndpoint.java:49).
- An invalid card signature makes `verifySignature` throw, so the router answers 500. No `valid: false` answer exists (src/main/java/dnd/server/service/AuthenticationService.java:80-88).
- The bank callback has no payment-method or cash branch. A stored key answers "duplicate" when the idempotency read succeeds. When that read fails, or the key violates the unique index during the insert, the answer is 500, because `insertAndGetId` returns null (src/main/java/dnd/server/endpoints/TransactionEndpoint.java:141-145).
- The payment-status endpoint never reports the documented "not_found" status. An unknown prescription is a 404 (src/main/java/dnd/server/endpoints/GetPrescriptionPaymentStatusEndpoint.java:16,49-51).

## Left out

- **Cryptographic primitives.** HMAC-SHA256, AES-CBC decryption and SHA1withRSA verification are parameters (`Primitives`). The model assumes only HMAC's 32-byte output and `SecretKeySpec`'s refusal of an empty key. `SecureRandom` is a nondeterministic choice of bytes of the right length.
- **`timingSafeEqual`'s char arithmetic.** The XOR and OR of characters are computed on their code points as unbounded naturals (`Bits`). Timing itself is not modelled.
- **Gson.** Serialising the callback body is the parameter `serialize`. The text rendering of `Response.toJson` and `HttpResponse` is not modelled, only their JSON trees.
- **Floating point.** A `double` is an exact real number with NaN and the infinities. Rounding while parsing, and hexadecimal floating-point literals, are not modelled. As a result, a finite literal beyond the range of a `double` stays exact in the model. For example, an `amount` of `1e400` is finite in the model, but Gson reads it as Infinity, which the callback's amount check then sees (src/main/java/dnd/server/endpoints/TransactionEndpoint.java:94).
- **The wall clock.** It is the parameter `now` throughout.
- **Concurrency.** The singletons, `synchronized getInstance`, `ConcurrentHashMap`, and the race between the idempotency check and the insert in the bank callback are not modelled. Everything is sequential.
- **`DbManager` and `DbConfig`.** The connection pool, the JDBC result conversion and the configuration file are not part of this model. The tables are fields of `Database.Db`.
- **Database failures.** `DbManager` turns a failed SELECT into an empty result, so a failed read looks like a missing row. Where that changes what an endpoint does, the failure is a boolean parameter:
  - in the bank callback, `readFails` for the idempotency read, and `insertFails`, `auditLost` and `logLost` for the writes;
  - in cancel-payment, the `Faults` record (the prescription read, the payment read, the UPDATE, the read-back after it, and the log insert);
  - in the payment-status endpoint, `lookupFails` and `readFails`;
  - in the inventory import, `batchReadFails`;
  - in the avatar upload, `updateLost`;
  - in `completeAuthentication`, `insertFails`, which the code never checks (`AuthService.InsertFailureUnnoticed`).
- **Failed reads that look like a missing row.** These reads are modelled only as succeeding. When one fails, the endpoint gives the same answer as for a missing row:
  - the card lookup in `CardKeyDao.findByCardId` (the card is unknown);
  - the staff read in the avatar upload (404);
  - the medicine read in the inventory export (400 "Medicine not found");
  - the card scan of the issue counter (no cards, so the answer is 1);
  - the prescription read of the QR endpoint (404).
- Inventory.Import: the batch UPDATE, the medicines UPDATE and the journal INSERT are assumed to succeed. The code ignores their results, so a lost write still answers 200 (src/main/java/dnd/server/endpoints/ImportInventoryEndpoint.java:50-59).
- Inventory.Export: the medicines UPDATE, the batch UPDATE and the journal INSERT are likewise assumed to succeed (src/main/java/dnd/server/endpoints/ExportInventoryEndpoint.java:56-63).
- TransactionEndpoint.FindByKey: compares idempotency keys with exact string equality. The `transactions` table uses the server's default utf8mb4 collation, which may ignore case and accents. In that case the database treats keys differing only in case as one key, both for the lookup and for the unique index; the model does not.
- PaymentStatus.PaidIffPaymentRef: compares `ref` with exact string equality, under the same collation caveat as `TransactionEndpoint.FindByKey`.
- Text.ParseSigned: accepts ASCII digits only. Java's `Long.parseLong` also accepts other Unicode decimal digits (Arabic-Indic, fullwidth and so on) through `Character.digit`.
- Hex.HexToBytes: accepts ASCII hexadecimal digits only. `Character.digit(c, 16)` also accepts other Unicode decimal digits and the fullwidth letters A-F and a-f.
- **Inventory.Receive: batch insert.** It assumes the insert of a new batch succeeds. A null batch id from `insertAndGetId`, which would put a null `batch_id` into the journal row, is not modelled.
- **Auto-increment ids.** The model assumes ids are consecutive: a new row's id is one more than the largest id in its table (`Database.NextId`). InnoDB also uses up an id on an insert that fails, for example one the unique index refuses. After a bank callback answered 500 that way, the next callback's real `transactionId` is one higher than the model's.
- Text.UpperAscii: upper-cases only a-z. Java's `String.toUpperCase()` also changes other characters and depends on the default locale:
  - it lengthens some strings ("ß" becomes "SS");
  - it maps letters outside ASCII ("é" becomes "É", and "ſ" becomes "S", so a method "poſt" is routed as POST);
  - under a Turkish locale, "i" becomes "İ".
  For such methods the model may route differently, and the 404 message may quote the method differently.
- **Table creation.** `ensureTransactionsTableExists` and `ensureAvatarColumnExists` create tables and columns with DDL and swallow every error, so they are left out.
- **Logging.** `java.util.logging` and `System.err` output are left out.
- **Object storage.** `MinIOClient` and `MinIOConfig` are not part of this model. The upload is the input `Upload` (a URL or a failure message), and the call made is the output `UploadCall`.
- **Network and HTTP plumbing.** `MedCardServer`, `HttpServerHandler`, `HttpRequest` (including its lower-casing of header names) and `Request.parse` are left out. `ApiRouter.Handle` takes the endpoint's behaviour as the parameter `run`. The order in which a `HashMap` iterates its routes is the parameter `order`.
- **Other endpoints.** The single-statement CRUD and listing endpoints and the `ApduForwardEndpoint` stub are left out. Their behaviour is the SQL they send.
- PrescriptionQr.Answer: requires a non-empty account list, which `BankConfig.AccountsNeverEmpty` guarantees. The `IndexOutOfBoundsException` an empty list would raise is not modelled.
- PaymentStatus.Latest: `ORDER BY created_at DESC LIMIT 1` leaves ties to the database. The model takes the first matching row in table order among equals. `paidAt` is the row's `createdAt` number, not a `DATETIME`.
- StaffAvatar.Store: the `UPDATE staff_info` result is ignored by the code. The model lets the parameter `updateLost` decide whether the URL is stored; either way the answer is the same 200.

## Findings

| source | as written | input that shows it | evidently intended | confidence | as-written member | corrected member |
|---|---|---|---|---|---|---|
| src/main/java/dnd/server/endpoints/GetIssueCounterEndpoint.java:50-67 | bytes 2..3 are read as a signed `short`. `maxCounter` therefore never exceeds 32767, the overflow check at 65535 can never fire, and `(short)(maxCounter + 1)` wraps 32767 to -32768 | active cards of type 1 whose ids hold counter bytes 7F FF: the answer is -32768. A card issued with it stores 80 00, which reads as -32768, so the next answer is -32768 again and two cards get the same counter | the counter is an unsigned 16-bit number: answers go up to 65535, and the overflow error comes when a card already holds 65535 | not executed | IssueCounter.CounterRepeatsAfterWrap | IssueCounter.IntendedNextCounterResponse |

`IssueCounter.Handle` models the endpoint as written. `IssueCounter.IntendedAnswer` is the corrected endpoint beside it. Both use the same scan, parameterised by signed or unsigned reading (`IssueCounter.Counter16`).
