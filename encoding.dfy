/** The two text encodings the core relies on: `String.getBytes(UTF_8)` and the
    basic Base64 alphabet of section 4 of RFC 4648, as written by
    `Base64.getEncoder()` (with padding, no line breaks) and read by
    `Base64.getDecoder()`. */
module Encoding {
  import opened Wrappers
  import opened Bytes

  // ---------------------------------------------------------------------------
  // UTF-8

  /** The UTF-8 bytes of one Unicode scalar value. */
  function Utf8Char(c: char): (r: Bytes)
    ensures 1 <= |r| <= 4
    ensures (c as int < 0x80) <==> |r| == 1
    ensures c as int < 0x80 ==> r == [c as int]
  {
    var n := c as int;
    if n < 0x80 then [n]
    else if n < 0x800 then [0xC0 + n / 64, 0x80 + n % 64]
    else if n < 0x10000 then [0xE0 + n / 4096, 0x80 + (n / 64) % 64, 0x80 + n % 64]
    else [0xF0 + n / 262144, 0x80 + (n / 4096) % 64, 0x80 + (n / 64) % 64, 0x80 + n % 64]
  }

  /** `s.getBytes(StandardCharsets.UTF_8)`. */
  function Utf8(s: string): (r: Bytes)
    ensures |s| <= |r| <= 4 * |s|
  {
    if s == [] then [] else Utf8Char(s[0]) + Utf8(s[1..])
  }

  predicate IsAscii(s: string) { forall i :: 0 <= i < |s| ==> s[i] as int < 0x80 }

  /** On ASCII text UTF-8 is the identity on character codes. */
  lemma {:induction false} Utf8OfAscii(s: string)
    requires IsAscii(s)
    ensures Utf8(s) == Ascii(s)
  {
    if s != [] {
      Utf8OfAscii(s[1..]);
      assert Ascii(s) == [s[0] as int] + Ascii(s[1..]);
    }
  }

  /** Encoding distributes over concatenation. */
  lemma {:induction false} Utf8Append(s: string, t: string)
    ensures Utf8(s + t) == Utf8(s) + Utf8(t)
  {
    if s == [] {
      assert s + t == t;
    } else {
      assert (s + t)[1..] == s[1..] + t;
      Utf8Append(s[1..], t);
    }
  }

  // ---------------------------------------------------------------------------
  // Base64 alphabet

  /** The character for a 6-bit value: A-Z, a-z, 0-9, '+', '/'. */
  function Sextet(v: nat): (c: char)
    requires v < 64
  {
    if v < 26 then ('A' as int + v) as char
    else if v < 52 then ('a' as int + (v - 26)) as char
    else if v < 62 then ('0' as int + (v - 52)) as char
    else if v == 62 then '+'
    else '/'
  }

  /** The inverse of `Sextet`; `None` for a character outside the alphabet
      (including the pad character '='). */
  function SextetValue(c: char): (r: Option<nat>)
    ensures r.Some? ==> r.value < 64 && Sextet(r.value) == c
  {
    if 'A' <= c <= 'Z' then Some(c as int - 'A' as int)
    else if 'a' <= c <= 'z' then Some(c as int - 'a' as int + 26)
    else if '0' <= c <= '9' then Some(c as int - '0' as int + 52)
    else if c == '+' then Some(62)
    else if c == '/' then Some(63)
    else None
  }

  lemma SextetRoundTrip(v: nat)
    requires v < 64
    ensures SextetValue(Sextet(v)) == Some(v)
  {
  }

  predicate IsBase64Char(c: char) { SextetValue(c).Some? }

  // ---------------------------------------------------------------------------
  // Encoder

  /** Three bytes as four characters, six bits each, most significant first. */
  function EncodeGroup(b0: byte, b1: byte, b2: byte): (r: string)
    ensures |r| == 4 && forall i :: 0 <= i < 4 ==> IsBase64Char(r[i])
  {
    SextetRoundTrip(b0 / 4);
    SextetRoundTrip((b0 % 4) * 16 + b1 / 16);
    SextetRoundTrip((b1 % 16) * 4 + b2 / 64);
    SextetRoundTrip(b2 % 64);
    [Sextet(b0 / 4), Sextet((b0 % 4) * 16 + b1 / 16), Sextet((b1 % 16) * 4 + b2 / 64), Sextet(b2 % 64)]
  }

  /** The unpadded encoding: each group of three bytes becomes four characters;
      a trailing single byte is the first two characters of its group (padded
      with zero bits), a trailing pair the first three. */
  function EncodeBody(b: Bytes): (r: string)
    ensures |r| == (4 * |b| + 2) / 3
    ensures forall i :: 0 <= i < |r| ==> IsBase64Char(r[i])
  {
    if |b| == 0 then ""
    else if |b| == 1 then EncodeGroup(b[0], 0, 0)[..2]
    else if |b| == 2 then EncodeGroup(b[0], b[1], 0)[..3]
    else EncodeGroup(b[0], b[1], b[2]) + EncodeBody(b[3..])
  }

  /** The '=' characters that complete the last group of four. */
  function Padding(n: nat): string {
    if n % 3 == 1 then "==" else if n % 3 == 2 then "=" else ""
  }

  /** `Base64.getEncoder().encodeToString(b)`. */
  function Encode(b: Bytes): (r: string)
    ensures |r| == 4 * ((|b| + 2) / 3)
    ensures forall i :: 0 <= i < |r| ==> IsBase64Char(r[i]) || r[i] == '='
  {
    EncodeBody(b) + Padding(|b|)
  }

  /** A 32-byte digest always encodes to 44 characters, the last being '='. */
  lemma EncodeDigestLength(b: Bytes)
    requires |b| == 32
    ensures |Encode(b)| == 44 && Encode(b)[43] == '='
  {
  }

  // ---------------------------------------------------------------------------
  // Decoder

  /** The index of the first '=' in `s`, or `|s|` when there is none. */
  function PadStart(s: string): (p: nat)
    ensures p <= |s|
    ensures forall i :: 0 <= i < p ==> s[i] != '='
    ensures p < |s| ==> s[p] == '='
  {
    if s == [] then 0 else if s[0] == '=' then 0 else 1 + PadStart(s[1..])
  }

  function Val(c: char): (v: nat)
    requires IsBase64Char(c)
    ensures v < 64
  {
    SextetValue(c).value
  }

  /** Four 6-bit values as three bytes. */
  function DecodeQuad(c0: nat, c1: nat, c2: nat, c3: nat): (r: Bytes)
    requires c0 < 64 && c1 < 64 && c2 < 64 && c3 < 64
    ensures |r| == 3
  {
    [c0 * 4 + c1 / 16, (c1 % 16) * 16 + c2 / 4, (c2 % 4) * 64 + c3]
  }

  /** The bytes of an unpadded run of alphabet characters; a final group of two
      or three characters yields one or two bytes, and its unused low bits are
      ignored, as the JDK decoder does. */
  function DecodeBody(body: string): (r: Bytes)
    requires forall i :: 0 <= i < |body| ==> IsBase64Char(body[i])
    requires |body| % 4 != 1
    ensures |r| == 3 * |body| / 4
  {
    if |body| == 0 then []
    else if |body| == 2 then DecodeQuad(Val(body[0]), Val(body[1]), 0, 0)[..1]
    else if |body| == 3 then DecodeQuad(Val(body[0]), Val(body[1]), Val(body[2]), 0)[..2]
    else DecodeQuad(Val(body[0]), Val(body[1]), Val(body[2]), Val(body[3])) + DecodeBody(body[4..])
  }

  /** When `Base64.getDecoder().decode(s)` succeeds: alphabet characters up to
      the first '=', then either nothing (a final group of 2, 3 or 4), "==" after
      a group of 2, or "=" after a group of 3, and nothing after the padding. */
  predicate WellFormed(s: string) {
    var p := PadStart(s);
    (forall i :: 0 <= i < p ==> IsBase64Char(s[i])) &&
    ((s[p..] == "" && p % 4 != 1) || (s[p..] == "==" && p % 4 == 2) || (s[p..] == "=" && p % 4 == 3))
  }

  /** `Base64.getDecoder().decode(s)`; `None` is the IllegalArgumentException. */
  function Decode(s: string): (r: Option<Bytes>)
    ensures r.Some? <==> WellFormed(s)
  {
    if WellFormed(s) then Some(DecodeBody(s[..PadStart(s)])) else None
  }

  // ---------------------------------------------------------------------------
  // Round trip

  lemma ValSextet(v: nat)
    requires v < 64
    ensures IsBase64Char(Sextet(v)) && Val(Sextet(v)) == v
  {
    SextetRoundTrip(v);
  }

  /** The bit arithmetic of one group, free of characters. */
  lemma SplitJoin(b0: byte, b1: byte, b2: byte)
    ensures (b0 / 4) * 4 + ((b0 % 4) * 16 + b1 / 16) / 16 == b0
    ensures (((b0 % 4) * 16 + b1 / 16) % 16) * 16 + ((b1 % 16) * 4 + b2 / 64) / 4 == b1
    ensures (((b1 % 16) * 4 + b2 / 64) % 4) * 64 + b2 % 64 == b2
  {
    var h0, l0 := b0 / 4, b0 % 4;
    var h1, l1 := b1 / 16, b1 % 16;
    var h2, l2 := b2 / 64, b2 % 64;
    assert (l0 * 16 + h1) / 16 == l0 && (l0 * 16 + h1) % 16 == h1;
    assert (l1 * 4 + h2) / 4 == l1 && (l1 * 4 + h2) % 4 == h2;
  }

  /** One full group: the four characters of three bytes give the bytes back. */
  lemma GroupRoundTrip(b0: byte, b1: byte, b2: byte)
    ensures var g := EncodeGroup(b0, b1, b2);
      DecodeQuad(Val(g[0]), Val(g[1]), Val(g[2]), Val(g[3])) == [b0, b1, b2]
  {
    var g := EncodeGroup(b0, b1, b2);
    ValSextet(b0 / 4);
    ValSextet((b0 % 4) * 16 + b1 / 16);
    ValSextet((b1 % 16) * 4 + b2 / 64);
    ValSextet(b2 % 64);
    SplitJoin(b0, b1, b2);
  }

  lemma DecodeEncodeOne(b: Bytes)
    requires |b| == 1
    ensures |EncodeBody(b)| % 4 != 1
    ensures DecodeBody(EncodeBody(b)) == b
  {
    var g := EncodeGroup(b[0], 0, 0);
    var e := EncodeBody(b);
    GroupRoundTrip(b[0], 0, 0);
    assert e[0] == g[0] && e[1] == g[1];
    assert DecodeBody(e) == DecodeQuad(Val(g[0]), Val(g[1]), 0, 0)[..1];
  }

  lemma DecodeEncodeTwo(b: Bytes)
    requires |b| == 2
    ensures |EncodeBody(b)| % 4 != 1
    ensures DecodeBody(EncodeBody(b)) == b
  {
    var g := EncodeGroup(b[0], b[1], 0);
    var e := EncodeBody(b);
    GroupRoundTrip(b[0], b[1], 0);
    assert e[0] == g[0] && e[1] == g[1] && e[2] == g[2];
    assert DecodeBody(e) == DecodeQuad(Val(g[0]), Val(g[1]), Val(g[2]), 0)[..2];
  }

  lemma {:induction false} DecodeEncodeBody(b: Bytes)
    ensures |EncodeBody(b)| % 4 != 1
    ensures DecodeBody(EncodeBody(b)) == b
  {
    if |b| == 1 {
      DecodeEncodeOne(b);
    } else if |b| == 2 {
      DecodeEncodeTwo(b);
    } else if |b| >= 3 {
      DecodeEncodeBody(b[3..]);
      DecodeGroupThen(b[0], b[1], b[2], EncodeBody(b[3..]));
      assert EncodeBody(b) == EncodeGroup(b[0], b[1], b[2]) + EncodeBody(b[3..]);
      assert b == [b[0], b[1], b[2]] + b[3..];
    }
  }

  /** A full group in front of a decodable run decodes to its three bytes in
      front of the run's bytes. */
  lemma DecodeGroupThen(b0: byte, b1: byte, b2: byte, rest: string)
    requires forall i :: 0 <= i < |rest| ==> IsBase64Char(rest[i])
    requires |rest| % 4 != 1
    ensures |EncodeGroup(b0, b1, b2) + rest| % 4 != 1
    ensures DecodeBody(EncodeGroup(b0, b1, b2) + rest) == [b0, b1, b2] + DecodeBody(rest)
  {
    var g := EncodeGroup(b0, b1, b2);
    GroupRoundTrip(b0, b1, b2);
    DecodeQuadThen(g, rest);
  }

  lemma DecodeQuadThen(q: string, rest: string)
    requires |q| == 4 && forall i :: 0 <= i < 4 ==> IsBase64Char(q[i])
    requires forall i :: 0 <= i < |rest| ==> IsBase64Char(rest[i])
    requires |rest| % 4 != 1
    ensures |q + rest| % 4 != 1 && forall i :: 0 <= i < |q + rest| ==> IsBase64Char((q + rest)[i])
    ensures DecodeBody(q + rest) == DecodeQuad(Val(q[0]), Val(q[1]), Val(q[2]), Val(q[3])) + DecodeBody(rest)
  {
    var e := q + rest;
    assert e[4..] == rest;
    assert e[0] == q[0] && e[1] == q[1] && e[2] == q[2] && e[3] == q[3];
  }

  lemma {:induction false} PadStartOf(body: string, pad: string)
    requires forall i :: 0 <= i < |body| ==> body[i] != '='
    requires pad == "" || pad[0] == '='
    ensures PadStart(body + pad) == |body|
  {
    if body == [] {
      assert body + pad == pad;
    } else {
      var s := body + pad;
      assert s[0] == body[0] && s[0] != '=';
      assert s[1..] == body[1..] + pad;
      assert forall i :: 0 <= i < |body[1..]| ==> body[1..][i] == body[i + 1];
      PadStartOf(body[1..], pad);
    }
  }

  /** The unpadded length fixes the padding: a group of 2 needs "==", of 3 needs "=". */
  lemma BodyLength(n: nat)
    ensures (4 * n + 2) / 3 % 4 == (if n % 3 == 1 then 2 else if n % 3 == 2 then 3 else 0)
  {
    var q, m := n / 3, n % 3;
    assert n == 3 * q + m;
    assert 4 * n + 2 == 3 * (4 * q + m) + (m + 2);
  }

  /** Alphabet text followed by the padding its length calls for is decodable. */
  lemma WellFormedOf(body: string, pad: string)
    requires forall i :: 0 <= i < |body| ==> IsBase64Char(body[i])
    requires (pad == "" && |body| % 4 != 1) || (pad == "==" && |body| % 4 == 2) || (pad == "=" && |body| % 4 == 3)
    ensures WellFormed(body + pad) && PadStart(body + pad) == |body|
  {
    var s := body + pad;
    PadStartOf(body, pad);
    assert s[|body|..] == pad;
    forall i | 0 <= i < |body| ensures IsBase64Char(s[i]) {
      assert s[i] == body[i];
    }
  }

  /** Decoding an encoding gives back the bytes. */
  lemma DecodeEncode(b: Bytes)
    ensures Decode(Encode(b)) == Some(b)
  {
    var body := EncodeBody(b);
    var pad := Padding(|b|);
    DecodeEncodeBody(b);
    BodyLength(|b|);
    WellFormedOf(body, pad);
    assert (body + pad)[..|body|] == body;
  }

  /** Only the alphabet and padding can appear in decodable text. */
  lemma DecodeRejectsForeign(s: string, i: nat)
    requires i < |s| && !IsBase64Char(s[i]) && s[i] != '='
    ensures Decode(s) == None
  {
  }
}
