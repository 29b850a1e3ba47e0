/** `dnd.server.crypto.HmacUtils`: the webhook signature and the constant-time
    comparison it is checked with. */
module HmacUtils {
  import opened Wrappers
  import opened Bytes
  import Bits
  import Encoding
  import Primitives

  /** `timingSafeEqual(a, b)`: two nulls are equal, one null is not; strings of
      different lengths are unequal without looking at a character; otherwise
      `result |= a[i] ^ b[i]` runs over every index and the strings are equal
      exactly when the accumulated value is zero. */
  method TimingSafeEqual(a: Option<string>, b: Option<string>) returns (r: bool)
    ensures r <==> a == b
  {
    if a.None? || b.None? {
      return a == b;
    }
    var s, t := a.value, b.value;
    if |s| != |t| {
      return false;
    }
    var result: nat := 0;
    for i := 0 to |s|
      invariant result == 0 <==> s[..i] == t[..i]
    {
      var x := Bits.Xor(s[i] as int, t[i] as int);
      Bits.XorZeroIffEqual(s[i] as int, t[i] as int);
      Bits.OrZeroIffBothZero(result, x);
      assert s[..i + 1] == s[..i] + [s[i]] && t[..i + 1] == t[..i] + [t[i]];
      if s[..i + 1] == t[..i + 1] {
        assert s[..i] == s[..i + 1][..i] && t[..i] == t[..i + 1][..i];
      }
      result := Bits.Or(result, x);
    }
    assert s[..|s|] == s && t[..|t|] == t;
    return result == 0;
  }

  /** `hmacSha256Base64(secret, payload)`: the Base64 text of
      HMAC-SHA256(UTF-8(secret), UTF-8(payload)); an empty secret is rejected by
      `SecretKeySpec` with an IllegalArgumentException that is not caught. */
  function HmacSha256Base64(mac: Primitives.Mac, secret: string, payload: string): (r: Throws<string>)
    ensures secret == [] <==> r == Failure(IllegalArgument)
    ensures r.Success? ==> |r.value| == 44
  {
    var key := Encoding.Utf8(secret);
    var hash :- Primitives.HmacSha256(mac, key, Encoding.Utf8(payload));
    Encoding.EncodeDigestLength(hash);
    Success(Encoding.Encode(hash))
  }

  /** The signature text decodes back to the MAC of the secret and the payload. */
  lemma SignatureDecodes(mac: Primitives.Mac, secret: string, payload: string)
    requires secret != []
    ensures HmacSha256Base64(mac, secret, payload).Success?
    ensures Encoding.Decode(HmacSha256Base64(mac, secret, payload).value)
              == Some(mac(Encoding.Utf8(secret), Encoding.Utf8(payload)))
  {
    Encoding.DecodeEncode(mac(Encoding.Utf8(secret), Encoding.Utf8(payload)));
  }
}
