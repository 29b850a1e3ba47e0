/** `dnd.server.util.HexUtils`: Base16 (section 8 of RFC 4648) with upper-case
    output, and a lenient decoder that ignores whitespace and reads each pair of
    characters with `Integer.parseInt(pair, 16)`. */
module Hex {
  import opened Wrappers
  import opened Bytes
  import Text

  predicate IsUpperHexDigit(c: char) { '0' <= c <= '9' || 'A' <= c <= 'F' }
  predicate IsLowerHexDigit(c: char) { '0' <= c <= '9' || 'a' <= c <= 'f' }

  /** The digit for a nibble, as `%02X` (upper) or `%02x` (lower) prints it:
      `0`-`9`, then `A`-`F` or `a`-`f`. */
  function Digit(d: nat, upper: bool): (c: char)
    requires d < 16
    ensures upper ==> IsUpperHexDigit(c)
    ensures !upper ==> IsLowerHexDigit(c)
    ensures !Text.IsRegexSpace(c)
  {
    if d < 10 then ('0' as int + d) as char
    else if upper then ('A' as int + d - 10) as char
    else ('a' as int + d - 10) as char
  }

  /** `String.format("%02X", b & 0xFF)` or its lower-case twin. */
  function Pair(b: byte, upper: bool): string {
    [Digit(b / 16, upper), Digit(b % 16, upper)]
  }

  /** The hex text of a byte sequence: byte i occupies characters 2i and 2i+1. */
  function Encode(bytes: Bytes, upper: bool): (r: string)
    ensures |r| == 2 * |bytes|
    ensures forall i :: 0 <= i < |bytes| ==>
              r[2 * i] == Digit(bytes[i] / 16, upper) && r[2 * i + 1] == Digit(bytes[i] % 16, upper)
  {
    if bytes == [] then ""
    else Encode(bytes[..|bytes| - 1], upper) + Pair(bytes[|bytes| - 1], upper)
  }

  /** Character k of an encoding is a digit of byte k / 2. */
  lemma EncodeChar(bytes: Bytes, upper: bool, k: nat)
    requires k < 2 * |bytes|
    ensures Encode(bytes, upper)[k] ==
              if k % 2 == 0 then Digit(bytes[k / 2] / 16, upper) else Digit(bytes[k / 2] % 16, upper)
  {
    var i := k / 2;
    if k % 2 == 0 {
      assert k == 2 * i;
    } else {
      assert k == 2 * i + 1;
    }
  }

  /** `HexUtils.bytesToHex`: `null` gives the empty string. */
  method BytesToHex(bytes: Option<Bytes>) returns (s: string)
    ensures bytes.None? ==> s == ""
    ensures bytes.Some? ==> s == Encode(bytes.value, true)
  {
    if bytes.None? {
      return "";
    }
    var b := bytes.value;
    var sb := "";
    for i := 0 to |b|
      invariant sb == Encode(b[..i], true)
    {
      assert b[..i + 1][..i] == b[..i];
      sb := sb + Pair(b[i], true);
    }
    assert b[..|b|] == b;
    s := sb;
  }

  /** The lower-case `%02x` loop shared by the two session-id generators. */
  method FormatLowerHex(b: Bytes) returns (s: string)
    ensures s == Encode(b, false)
    ensures |s| == 2 * |b| && forall i :: 0 <= i < |s| ==> IsLowerHexDigit(s[i])
  {
    var sb := "";
    for i := 0 to |b|
      invariant sb == Encode(b[..i], false)
    {
      assert b[..i + 1][..i] == b[..i];
      sb := sb + Pair(b[i], false);
    }
    assert b[..|b|] == b;
    s := sb;
    forall k | 0 <= k < |s| ensures IsLowerHexDigit(s[k]) {
      EncodeChar(b, false, k);
    }
  }

  // ---------------------------------------------------------------------------
  // Decoding

  /** `Character.digit(c, 16)` on ASCII: both cases of a-f are accepted. */
  function DigitValue(c: char): Option<nat> {
    if '0' <= c <= '9' then Some(c as int - '0' as int)
    else if 'A' <= c <= 'F' then Some(c as int - 'A' as int + 10)
    else if 'a' <= c <= 'f' then Some(c as int - 'a' as int + 10)
    else None
  }

  /** `(byte) Integer.parseInt(c1 c2, 16)`: two digits, or a sign followed by one
      digit (so "+F" is 0x0F and "-1" is 0xFF after the cast). */
  function ParsePair(c1: char, c2: char): (r: Option<byte>)
  {
    match DigitValue(c2)
    case None => None
    case Some(lo) =>
      if c1 == '+' then Some(lo)
      else if c1 == '-' then Some((256 - lo) % 256)
      else match DigitValue(c1)
        case None => None
        case Some(hi) => Some(16 * hi + lo)
  }

  function PairAt(s: string, j: nat): Option<byte>
    requires 2 * j + 1 < |s|
  {
    ParsePair(s[2 * j], s[2 * j + 1])
  }

  predicate AllPairsValid(s: string) {
    forall j :: 0 <= j < |s| / 2 ==> PairAt(s, j).Some?
  }

  /** The byte of every pair, in order. */
  function PairsValue(s: string): (r: Bytes)
    requires AllPairsValid(s)
    ensures |r| == |s| / 2
    ensures forall j :: 0 <= j < |r| ==> PairAt(s, j) == Some(r[j])
  {
    seq(|s| / 2, j requires 0 <= j < |s| / 2 => PairAt(s, j).value)
  }

  /** Decoding of whitespace-free text: odd length is an IllegalArgumentException,
      an unparsable pair a NumberFormatException. */
  function DecodeClean(s: string): Throws<Bytes> {
    if |s| % 2 != 0 then Failure(IllegalArgument)
    else if AllPairsValid(s) then Success(PairsValue(s))
    else Failure(NumberFormat)
  }

  /** What `HexUtils.hexToBytes` returns or throws. */
  function Decode(hex: Option<string>): Throws<Bytes> {
    if hex.None? || hex.value == "" then Success([])
    else DecodeClean(Text.RemoveWhitespace(hex.value))
  }

  /** `HexUtils.hexToBytes`: fills a fresh array pair by pair. */
  method HexToBytes(hex: Option<string>) returns (r: Throws<Bytes>)
    ensures r == Decode(hex)
  {
    if hex.None? || hex.value == "" {
      return Success([]);
    }
    var s := Text.RemoveWhitespace(hex.value);
    if |s| % 2 != 0 {
      return Failure(IllegalArgument);
    }
    var bytes := new byte[|s| / 2];
    for i := 0 to bytes.Length
      invariant forall j :: 0 <= j < i ==> PairAt(s, j).Some? && bytes[j] == PairAt(s, j).value
    {
      var p := ParsePair(s[2 * i], s[2 * i + 1]);
      if p.None? {
        assert PairAt(s, i).None?;
        return Failure(NumberFormat);
      }
      bytes[i] := p.value;
    }
    assert bytes[..] == PairsValue(s);
    return Success(bytes[..]);
  }

  // ---------------------------------------------------------------------------
  // Laws

  lemma EncodeHasNoWhitespace(bytes: Bytes, upper: bool)
    ensures forall i :: 0 <= i < |Encode(bytes, upper)| ==> !Text.IsRegexSpace(Encode(bytes, upper)[i])
  {
    var e := Encode(bytes, upper);
    forall i | 0 <= i < |e| ensures !Text.IsRegexSpace(e[i]) {
      EncodeChar(bytes, upper, i);
      var d := if i % 2 == 0 then bytes[i / 2] / 16 else bytes[i / 2] % 16;
      assert e[i] == Digit(d, upper);
    }
  }

  lemma DigitRoundTrip(d: nat, upper: bool)
    requires d < 16
    ensures DigitValue(Digit(d, upper)) == Some(d)
  {
  }

  lemma PairOfDigits(b: byte, upper: bool)
    ensures ParsePair(Digit(b / 16, upper), Digit(b % 16, upper)) == Some(b)
  {
    var hi, lo := b / 16, b % 16;
    assert b == 16 * hi + lo;
    DigitRoundTrip(hi, upper);
    DigitRoundTrip(lo, upper);
    var c1 := Digit(hi, upper);
    assert c1 != '+' && c1 != '-';
  }

  /** Decoding an encoding, in either case, gives back the bytes. */
  lemma DecodeEncode(bytes: Bytes, upper: bool)
    ensures Decode(Some(Encode(bytes, upper))) == Success(bytes)
  {
    var e := Encode(bytes, upper);
    if bytes != [] {
      EncodeHasNoWhitespace(bytes, upper);
      Text.RemoveWhitespaceOfClean(e);
      assert |e| / 2 == |bytes|;
      forall j | 0 <= j < |bytes| ensures PairAt(e, j) == Some(bytes[j]) {
        PairOfDigits(bytes[j], upper);
      }
      assert PairsValue(e) == bytes;
    }
  }

  /** `hexToBytes(bytesToHex(b)) == b`. */
  lemma HexToBytesOfBytesToHex(bytes: Bytes)
    ensures Decode(Some(Encode(bytes, true))) == Success(bytes)
  {
    DecodeEncode(bytes, true);
  }

  /** Whitespace anywhere in the input is ignored: "AB CD" and "ABCD" agree. */
  lemma DecodeIgnoresWhitespace(s: string)
    ensures Decode(Some(s)) == Decode(Some(Text.RemoveWhitespace(s)))
  {
    var c := Text.RemoveWhitespace(s);
    Text.RemoveWhitespaceOfClean(c);
    if s != "" && c == "" {
      assert DecodeClean(c) == Success([]);
    }
  }

  /** A successful decode has half as many bytes as the stripped text has
      characters, and an odd stripped length is an IllegalArgumentException. */
  lemma DecodeLength(s: string)
    requires s != ""
    ensures |Text.RemoveWhitespace(s)| % 2 != 0 <==> Decode(Some(s)) == Failure(IllegalArgument)
    ensures Decode(Some(s)).Success? ==> |Decode(Some(s)).value| == |Text.RemoveWhitespace(s)| / 2
  {
  }

  lemma DigitValueCaseInsensitive(c: char)
    ensures DigitValue(Text.ToUpperAscii(c)) == DigitValue(c)
  {
  }

  lemma RemoveWhitespaceUpper(s: string)
    ensures Text.RemoveWhitespace(Text.UpperAscii(s)) == Text.UpperAscii(Text.RemoveWhitespace(s))
  {
    if s != [] {
      assert Text.UpperAscii(s)[1..] == Text.UpperAscii(s[1..]);
      RemoveWhitespaceUpper(s[1..]);
    }
  }

  /** Upper-casing leaves every pair's value unchanged. */
  lemma PairsUpper(c: string)
    ensures forall j :: 0 <= j < |c| / 2 ==> PairAt(Text.UpperAscii(c), j) == PairAt(c, j)
  {
    var cu := Text.UpperAscii(c);
    forall j | 0 <= j < |c| / 2 ensures PairAt(cu, j) == PairAt(c, j) {
      DigitValueCaseInsensitive(c[2 * j]);
      DigitValueCaseInsensitive(c[2 * j + 1]);
    }
  }

  lemma DecodeCleanUpper(c: string)
    ensures DecodeClean(Text.UpperAscii(c)) == DecodeClean(c)
  {
    var cu := Text.UpperAscii(c);
    PairsUpper(c);
    if |c| % 2 == 0 && AllPairsValid(c) {
      assert AllPairsValid(cu);
      assert PairsValue(cu) == PairsValue(c);
    }
  }

  /** Lower-case input decodes to the same bytes as its upper-case form. */
  lemma DecodeCaseInsensitive(s: string)
    ensures Decode(Some(Text.UpperAscii(s))) == Decode(Some(s))
  {
    if s != "" {
      RemoveWhitespaceUpper(s);
      DecodeCleanUpper(Text.RemoveWhitespace(s));
    }
  }

  /** The sign quirk of `Integer.parseInt`: "-1" is accepted and becomes 0xFF. */
  lemma SignedPairQuirk()
    ensures Decode(Some("-1")) == Success([255])
    ensures Decode(Some("+F")) == Success([15])
  {
    Text.RemoveWhitespaceOfClean("-1");
    Text.RemoveWhitespaceOfClean("+F");
    assert PairAt("-1", 0) == Some(255);
    assert PairAt("+F", 0) == Some(15);
    assert PairsValue("-1") == [255];
    assert PairsValue("+F") == [15];
  }
}
