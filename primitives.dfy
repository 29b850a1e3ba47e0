/** The cryptographic library calls the core delegates to, kept abstract:
    HMAC-SHA256 (RFC 2104) is any function with a 32-byte output, AES-CBC and
    SHA1withRSA are functions whose `None` result stands for the exception the
    library throws. Each is a parameter of the operations that use it, so every
    property proved holds for every implementation. */
module Primitives {
  import opened Wrappers
  import opened Bytes

  /** A keyed MAC with the output size of HMAC-SHA256: the only fact assumed. */
  type Mac = f: (Bytes, Bytes) -> Bytes | forall key, data :: |f(key, data)| == 32
    witness ConstantMac

  function ConstantMac(key: Bytes, data: Bytes): Bytes { Zeros(32) }

  /** `Cipher.doFinal` for AES-CBC in decrypt mode: key, IV, input. */
  type Cipher = (Bytes, Bytes, Bytes) -> Option<Bytes>

  /** `Signature.verify` for SHA1withRSA: X.509 public key, data, signature. */
  type Verifier = (Bytes, Bytes, Bytes) -> Option<bool>

  /** `Mac.init(new SecretKeySpec(key, "HmacSHA256"))` then `doFinal(data)`:
      `SecretKeySpec` rejects an empty key with an IllegalArgumentException. */
  function HmacSha256(mac: Mac, key: Bytes, data: Bytes): (r: Throws<Bytes>)
    ensures key == [] <==> r == Failure(IllegalArgument)
    ensures r.Success? ==> |r.value| == 32 && r.value == mac(key, data)
  {
    if key == [] then Failure(IllegalArgument) else Success(mac(key, data))
  }
}
