/** `dnd.server.crypto.KeyDerivationFunction`: HKDF (RFC 5869) over HMAC-SHA256,
    and the one-block shortcut used to derive the session keys. */
module Kdf {
  import opened Wrappers
  import opened Bytes
  import opened Primitives

  /** The largest output HKDF-Expand may produce: 255 blocks of 32 bytes. */
  const MaxLength: nat := 255 * 32

  function InfoBytes(info: Option<Bytes>): Bytes {
    if info.None? then [] else info.value
  }

  // ---------------------------------------------------------------------------
  // Section 2.3 of RFC 5869, written as a specification

  /** T(0) is empty and T(i) = HMAC(PRK, T(i-1) | info | i). */
  function Block(mac: Mac, prk: Bytes, info: Bytes, i: nat): (t: Bytes)
    requires i <= 255
    ensures i == 0 <==> t == []
    ensures i > 0 ==> |t| == 32
  {
    if i == 0 then [] else mac(prk, Block(mac, prk, info, i - 1) + info + [i])
  }

  /** T(1) | ... | T(n). */
  function Blocks(mac: Mac, prk: Bytes, info: Bytes, n: nat): (r: Bytes)
    requires n <= 255
    ensures |r| == 32 * n
  {
    if n == 0 then [] else Blocks(mac, prk, info, n - 1) + Block(mac, prk, info, n)
  }

  /** The number of blocks needed for `length` bytes: ceil(length / 32). */
  function BlockCount(length: nat): (n: nat)
    ensures 32 * n >= length && 32 * n < length + 32
  {
    (length + 31) / 32
  }

  /** OKM: the first `length` bytes of T(1) | ... | T(N). */
  function Expand(mac: Mac, prk: Bytes, info: Bytes, length: nat): (okm: Bytes)
    requires length <= MaxLength
    ensures |okm| == length
  {
    Blocks(mac, prk, info, BlockCount(length))[..length]
  }

  /** Earlier blocks are a prefix of later ones. */
  lemma {:induction false} BlocksPrefix(mac: Mac, prk: Bytes, info: Bytes, m: nat, n: nat)
    requires m <= n <= 255
    ensures Blocks(mac, prk, info, m) == Blocks(mac, prk, info, n)[..32 * m]
    decreases n - m
  {
    if m < n {
      BlocksPrefix(mac, prk, info, m, n - 1);
      var bn := Blocks(mac, prk, info, n);
      assert bn[..32 * (n - 1)] == Blocks(mac, prk, info, n - 1);
      assert bn[..32 * m] == bn[..32 * (n - 1)][..32 * m];
    } else {
      assert Blocks(mac, prk, info, n)[..32 * n] == Blocks(mac, prk, info, n);
    }
  }

  /** A shorter output is a prefix of a longer one for the same key and info. */
  lemma ExpandPrefix(mac: Mac, prk: Bytes, info: Bytes, short: nat, long: nat)
    requires short <= long <= MaxLength
    ensures Expand(mac, prk, info, short) == Expand(mac, prk, info, long)[..short]
  {
    var m, n := BlockCount(short), BlockCount(long);
    BlocksPrefix(mac, prk, info, m, n);
    var bn := Blocks(mac, prk, info, n);
    assert Blocks(mac, prk, info, m)[..short] == bn[..32 * m][..short];
  }

  // ---------------------------------------------------------------------------
  // The Java code

  /** `hkdfExpand(prk, info, length)`: rejects a length above 8160, then fills a
      fresh array block by block, copying at most 32 bytes of each T(i). An
      empty PRK is rejected by `SecretKeySpec`. */
  method HkdfExpand(mac: Mac, prk: Bytes, info: Option<Bytes>, length: nat) returns (r: Throws<Bytes>)
    ensures length > MaxLength ==> r == Failure(IllegalArgument)
    ensures length <= MaxLength && prk == [] ==> r == Failure(IllegalArgument)
    ensures length <= MaxLength && prk != [] ==> r == Success(Expand(mac, prk, InfoBytes(info), length))
  {
    if length > MaxLength {
      return Failure(IllegalArgument);
    }
    if prk == [] {
      return Failure(IllegalArgument);
    }
    var inf := InfoBytes(info);
    var n := (length + 31) / 32;
    var okm := new byte[length](_ => 0);
    var t: Bytes := [];
    for i := 0 to n
      invariant t == Block(mac, prk, inf, i)
      invariant okm[..Min(32 * i, length)] == Blocks(mac, prk, inf, i)[..Min(32 * i, length)]
    {
      t := mac(prk, t + inf + [i + 1]);
      var offset := i * 32;
      var copyLength := Min(32, length - offset);
      assert Min(32 * i, length) == offset;
      ghost var done := Blocks(mac, prk, inf, i);
      assert okm[..offset] == done by {
        assert done[..offset] == done;
      }
      CopyBlock(okm, t, offset, copyLength);
      JoinPrefix(okm[..], done, t, offset, copyLength);
      assert Blocks(mac, prk, inf, i + 1) == done + t;
    }
    assert Min(32 * n, length) == length;
    assert okm[..] == okm[..length];
    return Success(okm[..]);
  }

  function Min(a: int, b: int): int { if a < b then a else b }

  /** A prefix `p` followed by `count` bytes of `t` is a prefix of `p + t`. */
  lemma JoinPrefix(s: seq<byte>, p: Bytes, t: Bytes, offset: nat, count: nat)
    requires offset + count <= |s| && |p| == offset && count <= |t|
    requires s[..offset] == p && s[offset..offset + count] == t[..count]
    ensures s[..offset + count] == (p + t)[..offset + count]
  {
    forall k | 0 <= k < offset + count ensures s[k] == (p + t)[k] {
      if k < offset {
        assert s[k] == s[..offset][k];
      } else {
        assert s[k] == s[offset..offset + count][k - offset];
      }
    }
  }

  /** `System.arraycopy(t, 0, okm, offset, count)`. */
  method CopyBlock(okm: array<byte>, t: Bytes, offset: nat, count: nat)
    requires count <= |t| && offset + count <= okm.Length
    modifies okm
    ensures okm[..offset] == old(okm[..offset])
    ensures okm[offset..offset + count] == t[..count]
    ensures okm[offset + count..] == old(okm[offset + count..])
  {
    for j := 0 to count
      invariant okm[..offset] == old(okm[..offset])
      invariant okm[offset..offset + j] == t[..j]
      invariant okm[offset + count..] == old(okm[offset + count..])
    {
      okm[offset + j] := t[j];
    }
  }

  // ---------------------------------------------------------------------------
  // Extract-and-expand

  /** Section 2.2 of RFC 5869: a missing or empty salt is HashLen zero bytes. */
  function EffectiveSalt(salt: Option<Bytes>): (r: Bytes)
    ensures r != []
  {
    if salt.None? || salt.value == [] then Zeros(32) else salt.value
  }

  /** What `hkdf(ikm, salt, info, keyLength)` returns or throws: a null IKM or a
      non-positive length is an IllegalArgumentException; every failure inside
      (the length cap of HKDF-Expand) is rethrown as a RuntimeException. */
  function Derive(mac: Mac, ikm: Option<Bytes>, salt: Option<Bytes>, info: Option<Bytes>, keyLength: int): (r: Throws<Bytes>)
    ensures (ikm.None? || keyLength <= 0) <==> r == Failure(IllegalArgument)
    ensures (ikm.Some? && keyLength > MaxLength) <==> r == Failure(Runtime)
    ensures r.Success? ==> |r.value| == keyLength
  {
    if ikm.None? || keyLength <= 0 then Failure(IllegalArgument)
    else if keyLength > MaxLength then Failure(Runtime)
    else Success(Expand(mac, mac(EffectiveSalt(salt), ikm.value), InfoBytes(info), keyLength))
  }

  /** `hkdf`: extraction with the (defaulted) salt as key, then `hkdfExpand`. */
  method Hkdf(mac: Mac, ikm: Option<Bytes>, salt: Option<Bytes>, info: Option<Bytes>, keyLength: int) returns (r: Throws<Bytes>)
    ensures r == Derive(mac, ikm, salt, info, keyLength)
  {
    if ikm.None? || keyLength <= 0 {
      return Failure(IllegalArgument);
    }
    var s := if salt.None? || salt.value == [] then Zeros(32) else salt.value;
    var prk := HmacSha256(mac, s, ikm.value);
    if prk.Failure? {
      return Failure(Runtime);
    }
    var okm := HkdfExpand(mac, prk.value, info, keyLength);
    if okm.Failure? {
      return Failure(Runtime);
    }
    return okm;
  }

  /** A null salt, an empty salt and 32 zero bytes give the same keys. */
  lemma DefaultSalt(mac: Mac, ikm: Option<Bytes>, info: Option<Bytes>, keyLength: int)
    ensures Derive(mac, ikm, None, info, keyLength) == Derive(mac, ikm, Some([]), info, keyLength)
    ensures Derive(mac, ikm, None, info, keyLength) == Derive(mac, ikm, Some(Zeros(32)), info, keyLength)
  {
  }

  /** Asking for fewer bytes gives a prefix of the longer output. */
  lemma DerivePrefix(mac: Mac, ikm: Bytes, salt: Option<Bytes>, info: Option<Bytes>, short: int, long: int)
    requires 0 < short <= long <= MaxLength
    ensures Derive(mac, Some(ikm), salt, info, short).Success?
    ensures Derive(mac, Some(ikm), salt, info, long).Success?
    ensures Derive(mac, Some(ikm), salt, info, short).value
              == Derive(mac, Some(ikm), salt, info, long).value[..short]
  {
    ExpandPrefix(mac, mac(EffectiveSalt(salt), ikm), InfoBytes(info), short, long);
  }

  // ---------------------------------------------------------------------------
  // The session-key shortcut

  /** `hkdf32(ikm, salt, info4)`: HMAC(HMAC(salt, ikm), info4) with no salt
      default, so an empty salt makes `SecretKeySpec` throw, rethrown as a
      RuntimeException. */
  function Hkdf32(mac: Mac, ikm: Bytes, salt: Bytes, info4: Bytes): (r: Throws<Bytes>)
    ensures salt == [] <==> r == Failure(Runtime)
    ensures r.Success? ==> |r.value| == 32
  {
    match HmacSha256(mac, salt, ikm)
    case Failure(_) => Failure(Runtime)
    case Success(prk) =>
      match HmacSha256(mac, prk, info4)
      case Failure(_) => Failure(Runtime)
      case Success(okm) => Success(okm)
  }

  /** For a non-empty salt, `hkdf32(ikm, salt, info | 0x01)` is one-block HKDF
      with output length 32. */
  lemma Hkdf32IsOneBlock(mac: Mac, ikm: Bytes, salt: Bytes, info: Bytes)
    requires salt != []
    ensures Hkdf32(mac, ikm, salt, info + [1]) == Derive(mac, Some(ikm), Some(salt), Some(info), 32)
  {
    var prk := mac(salt, ikm);
    assert BlockCount(32) == 1;
    assert Blocks(mac, prk, info, 1) == Block(mac, prk, info, 1);
    assert [] + info + [1] == info + [1];
    assert Block(mac, prk, info, 1)[..32] == Block(mac, prk, info, 1);
  }

  const EncLabel: Bytes := [0x45, 0x4E, 0x43, 0x01]   // 'E','N','C',0x01
  const MacLabel: Bytes := [0x4D, 0x41, 0x43, 0x01]   // 'M','A','C',0x01

  /** `deriveSessionKeys(staticKey, challengeServer, challengeCard)`: the static
      key must be 32 bytes and neither challenge null (IllegalArgumentException);
      the challenge lengths are not checked. The salt is challengeServer followed
      by challengeCard, and the two keys are `hkdf32` under "ENC" and "MAC". */
  function DeriveSessionKeys(mac: Mac, staticKey: Option<Bytes>, challengeServer: Option<Bytes>,
                             challengeCard: Option<Bytes>): (r: Throws<(Bytes, Bytes)>)
    ensures (staticKey.None? || |staticKey.value| != 32 || challengeServer.None? || challengeCard.None?)
              <==> r == Failure(IllegalArgument)
    ensures r.Success? ==> |r.value.0| == 32 && |r.value.1| == 32
  {
    if staticKey.None? || |staticKey.value| != 32 then Failure(IllegalArgument)
    else if challengeServer.None? || challengeCard.None? then Failure(IllegalArgument)
    else
      var combined := challengeServer.value + challengeCard.value;
      var encKey :- Hkdf32(mac, staticKey.value, combined, EncLabel);
      var macKey :- Hkdf32(mac, staticKey.value, combined, MacLabel);
      Success((encKey, macKey))
  }

  /** The session keys are RFC 5869 HKDF with salt challengeServer | challengeCard,
      info "ENC" or "MAC" and output length 32; only two empty challenges fail. */
  lemma SessionKeysAreHkdf(mac: Mac, staticKey: Bytes, cs: Bytes, cc: Bytes)
    requires |staticKey| == 32
    ensures var r := DeriveSessionKeys(mac, Some(staticKey), Some(cs), Some(cc));
      && (r.Success? <==> cs + cc != [])
      && (r.Success? ==>
            && Derive(mac, Some(staticKey), Some(cs + cc), Some(EncLabel[..3]), 32) == Success(r.value.0)
            && Derive(mac, Some(staticKey), Some(cs + cc), Some(MacLabel[..3]), 32) == Success(r.value.1))
  {
    if cs + cc != [] {
      assert EncLabel == EncLabel[..3] + [1];
      assert MacLabel == MacLabel[..3] + [1];
      Hkdf32IsOneBlock(mac, staticKey, cs + cc, EncLabel[..3]);
      Hkdf32IsOneBlock(mac, staticKey, cs + cc, MacLabel[..3]);
    }
  }
}
