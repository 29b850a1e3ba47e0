/** The few `java.lang.String`, `Long` and `Byte` operations the core relies on,
    written out with the edge cases of the JDK: `\s` in a regular expression,
    `String.trim`, `String.split` (which drops trailing empty strings),
    `Long.toString` and `Long.parseLong`. */
module Text {
  import opened Wrappers

  const LongMin: int := -0x8000_0000_0000_0000
  const LongMax: int := 0x7FFF_FFFF_FFFF_FFFF
  const IntMin: int := -0x8000_0000
  const IntMax: int := 0x7FFF_FFFF

  /** The characters matched by `\s` in a `java.util.regex` pattern. */
  predicate IsRegexSpace(c: char) {
    c == ' ' || c == '\t' || c == '\n' || c == '\U{000B}' || c == '\U{000C}' || c == '\r'
  }

  /** `s.replaceAll("\\s+", "")`. */
  function RemoveWhitespace(s: string): (r: string)
    ensures |r| <= |s|
    ensures forall i :: 0 <= i < |r| ==> !IsRegexSpace(r[i])
  {
    if s == [] then []
    else if IsRegexSpace(s[0]) then RemoveWhitespace(s[1..])
    else [s[0]] + RemoveWhitespace(s[1..])
  }

  /** A string without whitespace is its own normal form. */
  lemma {:induction false} RemoveWhitespaceOfClean(s: string)
    requires forall i :: 0 <= i < |s| ==> !IsRegexSpace(s[i])
    ensures RemoveWhitespace(s) == s
  {
    if s != [] {
      RemoveWhitespaceOfClean(s[1..]);
    }
  }

  /** Removing whitespace distributes over concatenation. */
  lemma {:induction false} RemoveWhitespaceAppend(s: string, t: string)
    ensures RemoveWhitespace(s + t) == RemoveWhitespace(s) + RemoveWhitespace(t)
  {
    if s == [] {
      assert s + t == t;
    } else {
      assert (s + t)[1..] == s[1..] + t;
      RemoveWhitespaceAppend(s[1..], t);
    }
  }

  /** Characters removed by `String.trim`: every code point up to U+0020. */
  predicate IsTrimmable(c: char) { c as int <= 0x20 }

  function TrimStart(s: string): (r: string)
    ensures |r| <= |s| && r == s[|s| - |r|..]
    ensures r != [] ==> !IsTrimmable(r[0])
    ensures forall i :: 0 <= i < |s| - |r| ==> IsTrimmable(s[i])
  {
    if s != [] && IsTrimmable(s[0]) then TrimStart(s[1..]) else s
  }

  function TrimEnd(s: string): (r: string)
    ensures |r| <= |s| && r == s[..|r|]
    ensures r != [] ==> !IsTrimmable(r[|r| - 1])
    ensures forall i :: |r| <= i < |s| ==> IsTrimmable(s[i])
  {
    if s != [] && IsTrimmable(s[|s| - 1]) then TrimEnd(s[..|s| - 1]) else s
  }

  /** `s.trim()`. */
  function Trim(s: string): (r: string)
    ensures |r| <= |s|
    ensures r != [] ==> !IsTrimmable(r[0]) && !IsTrimmable(r[|r| - 1])
  {
    TrimEnd(TrimStart(s))
  }

  /** A string that starts and ends with a visible character is unchanged by `trim`. */
  lemma TrimOfTrimmed(s: string)
    requires s != [] ==> !IsTrimmable(s[0]) && !IsTrimmable(s[|s| - 1])
    ensures Trim(s) == s
  {
  }

  predicate StartsWith(s: string, prefix: string) {
    |prefix| <= |s| && s[..|prefix|] == prefix
  }

  function ToUpperAscii(c: char): char {
    if 'a' <= c <= 'z' then (c as int - 32) as char else c
  }

  /** `toUpperCase()` restricted to the ASCII letters that HTTP method names use. */
  function UpperAscii(s: string): (r: string)
    ensures |r| == |s|
    ensures forall i :: 0 <= i < |s| ==> r[i] == ToUpperAscii(s[i])
  {
    if s == [] then [] else [ToUpperAscii(s[0])] + UpperAscii(s[1..])
  }

  // ---------------------------------------------------------------------------
  // String.split with a one-character separator

  /** Every piece between separators, empty pieces included. */
  function SplitAll(s: string, sep: char): (r: seq<string>)
    ensures |r| >= 1
    ensures forall i :: 0 <= i < |r| ==> sep !in r[i]
    decreases |s|
  {
    if s == [] then [""]
    else
      var rest := SplitAll(s[1..], sep);
      if s[0] == sep then [""] + rest
      else [[s[0]] + rest[0]] + rest[1..]
  }

  function DropTrailingEmpty(parts: seq<string>): (r: seq<string>)
    ensures |r| <= |parts| && r == parts[..|r|]
    ensures r != [] ==> r[|r| - 1] != ""
    ensures forall i :: |r| <= i < |parts| ==> parts[i] == ""
  {
    if parts != [] && parts[|parts| - 1] == "" then DropTrailingEmpty(parts[..|parts| - 1])
    else parts
  }

  /** `s.split(String.valueOf(sep))`: an input without the separator is returned
      whole (even when empty); otherwise trailing empty pieces are removed. */
  function Split(s: string, sep: char): (r: seq<string>)
    ensures sep !in s ==> r == [s]
    ensures forall i :: 0 <= i < |r| ==> sep !in r[i]
  {
    if sep !in s then [s] else DropTrailingEmpty(SplitAll(s, sep))
  }

  /** A piece without the separator splits into itself. */
  lemma {:induction false} SplitAllOfPiece(s: string, sep: char)
    requires sep !in s
    ensures SplitAll(s, sep) == [s]
  {
    if s != [] {
      assert s[0] != sep && s == [s[0]] + s[1..];
      SplitAllOfPiece(s[1..], sep);
    }
  }

  /** A piece followed by the separator contributes exactly that piece. */
  lemma {:induction false} SplitAllAfterPiece(piece: string, sep: char, rest: string)
    requires sep !in piece
    ensures SplitAll(piece + [sep] + rest, sep) == [piece] + SplitAll(rest, sep)
  {
    if piece != [] {
      var whole := piece + [sep] + rest;
      assert whole[0] == piece[0] != sep && whole[1..] == piece[1..] + [sep] + rest;
      assert piece == [piece[0]] + piece[1..];
      SplitAllAfterPiece(piece[1..], sep, rest);
    } else {
      assert (piece + [sep] + rest)[1..] == rest;
    }
  }

  // ---------------------------------------------------------------------------
  // Decimal numbers

  predicate IsDigit(c: char) { '0' <= c <= '9' }

  predicate AllDigits(s: string) { forall i :: 0 <= i < |s| ==> IsDigit(s[i]) }

  function DigitValue(c: char): nat
    requires IsDigit(c)
  {
    c as int - '0' as int
  }

  function DigitChar(d: nat): (c: char)
    requires d < 10
    ensures IsDigit(c) && DigitValue(c) == d
  {
    ('0' as int + d) as char
  }

  /** The value of a string of decimal digits, leading zeros allowed. */
  function DigitsValue(s: string): nat
    requires AllDigits(s)
  {
    if s == [] then 0 else 10 * DigitsValue(s[..|s| - 1]) + DigitValue(s[|s| - 1])
  }

  /** The shortest decimal digits of `n`. */
  function NatDecimal(n: nat): (r: string)
    ensures r != [] && AllDigits(r)
    ensures n > 0 ==> r[0] != '0'
  {
    if n < 10 then [DigitChar(n)] else NatDecimal(n / 10) + [DigitChar(n % 10)]
  }

  lemma {:induction false} DigitsValueOfNatDecimal(n: nat)
    ensures DigitsValue(NatDecimal(n)) == n
  {
    if n >= 10 {
      var r := NatDecimal(n);
      assert r[..|r| - 1] == NatDecimal(n / 10);
      DigitsValueOfNatDecimal(n / 10);
    }
  }

  /** `Long.toString(n)` (and `"" + n`). */
  function DecimalOf(n: int): (r: string)
    ensures r != []
  {
    if n < 0 then "-" + NatDecimal(-n) else NatDecimal(n)
  }

  /** `Long.parseLong`, `Integer.parseInt` and `Byte.parseByte` all accept an
      optional sign followed by at least one digit and reject values outside
      [lo, hi]. */
  function ParseSigned(s: string, lo: int, hi: int): (r: Option<int>)
    ensures r.Some? ==> lo <= r.value <= hi
  {
    if s == [] then None
    else
      var neg := s[0] == '-';
      var digits := if s[0] == '-' || s[0] == '+' then s[1..] else s;
      if digits == [] || !AllDigits(digits) then None
      else
        var v: int := if neg then 0 - DigitsValue(digits) else DigitsValue(digits);
        if lo <= v <= hi then Some(v) else None
  }

  /** `Long.parseLong(s)`; `None` is a NumberFormatException. */
  function ParseLong(s: string): Option<int> { ParseSigned(s, LongMin, LongMax) }

  /** `Integer.parseInt(s)`. */
  function ParseInt(s: string): Option<int> { ParseSigned(s, IntMin, IntMax) }

  /** `Byte.parseByte(s)`. */
  function ParseByte(s: string): Option<int> { ParseSigned(s, -128, 127) }

  /** `Long.parseLong(Long.toString(n)) == n` for every `long`. */
  lemma ParseLongOfDecimal(n: int)
    requires LongMin <= n <= LongMax
    ensures ParseLong(DecimalOf(n)) == Some(n)
  {
    var s := DecimalOf(n);
    if n < 0 {
      assert s[1..] == NatDecimal(-n);
      DigitsValueOfNatDecimal(-n);
    } else {
      DigitsValueOfNatDecimal(n);
    }
  }

  /** Distinct numbers have distinct decimal renderings. */
  lemma DecimalOfInjective(m: int, n: int)
    requires LongMin <= m <= LongMax && LongMin <= n <= LongMax
    requires DecimalOf(m) == DecimalOf(n)
    ensures m == n
  {
    ParseLongOfDecimal(m);
    ParseLongOfDecimal(n);
  }
}
