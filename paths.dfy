/** The `path.split("/")` idiom the endpoints use to read an id out of a
    request path such as `/api/prescriptions/123/qr-code`: the id is the
    segment before a fixed last segment, read with `Long.parseLong`. */
module Paths {
  import opened Wrappers
  import Text

  /** `path.split("/")`. */
  function Segments(path: string): seq<string> {
    Text.Split(path, '/')
  }

  /** A non-empty segment without a slash. */
  predicate IsSegment(s: string) {
    s != "" && '/' !in s
  }

  /** The path with a "/" before each segment. */
  function Join(segments: seq<string>): (r: string)
    ensures segments != [] ==> r != [] && r[0] == '/'
  {
    if segments == [] then "" else "/" + segments[0] + Join(segments[1..])
  }

  /** How the id in front of a fixed last segment reads. */
  datatype PathId = BadFormat | BadNumber(text: string) | Id(value: int)

  /** A bad format when the path has fewer than `minParts` segments or does
      not end in `suffix`; otherwise the `long` in the second-to-last
      segment, or the text that is not one. */
  function IdBefore(path: string, minParts: nat, suffix: string): (r: PathId)
    requires minParts >= 2
    ensures var parts := Segments(path);
            && (r.BadFormat? <==> |parts| < minParts || parts[|parts| - 1] != suffix)
            && (r.BadNumber? ==> |parts| >= 2 && r.text == parts[|parts| - 2] && Text.ParseLong(r.text).None?)
            && (r.Id? ==> |parts| >= 2 && Text.ParseLong(parts[|parts| - 2]) == Some(r.value))
  {
    var parts := Segments(path);
    if |parts| < minParts || parts[|parts| - 1] != suffix then BadFormat
    else match Text.ParseLong(parts[|parts| - 2])
      case None => BadNumber(parts[|parts| - 2])
      case Some(id) => Id(id)
  }

  // ---------------------------------------------------------------------------
  // Laws

  lemma {:induction false} SplitAllOfJoin(first: string, rest: seq<string>)
    requires '/' !in first && forall i :: 0 <= i < |rest| ==> '/' !in rest[i]
    ensures Text.SplitAll(first + Join(rest), '/') == [first] + rest
    decreases |rest|
  {
    if rest == [] {
      assert first + Join(rest) == first;
      Text.SplitAllOfPiece(first, '/');
    } else {
      assert first + Join(rest) == first + ['/'] + (rest[0] + Join(rest[1..]));
      Text.SplitAllAfterPiece(first, '/', rest[0] + Join(rest[1..]));
      SplitAllOfJoin(rest[0], rest[1..]);
      assert [rest[0]] + rest[1..] == rest;
    }
  }

  /** Splitting a joined path gives back its segments after a leading "". */
  lemma SegmentsOfJoin(segments: seq<string>)
    requires segments != [] && forall i :: 0 <= i < |segments| ==> IsSegment(segments[i])
    ensures Segments(Join(segments)) == [""] + segments
  {
    var path := Join(segments);
    var parts := [""] + segments;
    assert Text.SplitAll(path, '/') == parts by {
      SplitAllOfJoin("", segments);
      assert "" + path == path;
    }
    assert parts[|parts| - 1] != "" by {
      assert parts[|parts| - 1] == segments[|segments| - 1];
    }
    assert '/' in path by { assert path[0] == '/'; }
    assert Text.DropTrailingEmpty(parts) == parts;
  }

  /** The decimal of a number has no slash. */
  lemma DecimalIsSegment(n: int)
    ensures IsSegment(Text.DecimalOf(n))
  {
    var d := Text.DecimalOf(n);
    forall i | 0 <= i < |d| ensures d[i] != '/' {
      if n < 0 && i > 0 {
        assert d[i] == Text.NatDecimal(-n)[i - 1];
      }
    }
  }

  /** A path whose segments end in `suffix` after a `long`'s text reads as
      that `long`. */
  lemma IdBeforeOfParts(path: string, minParts: nat, suffix: string, id: int)
    requires 2 <= minParts <= |Segments(path)|
    requires Segments(path)[|Segments(path)| - 1] == suffix
    requires Text.ParseLong(Segments(path)[|Segments(path)| - 2]) == Some(id)
    ensures IdBefore(path, minParts, suffix) == Id(id)
  {
    var parts := Segments(path);
    assert !(|parts| < minParts || parts[|parts| - 1] != suffix);
  }

  /** A joined path whose second-to-last segment is a `long`'s text reads
      as that `long`. */
  lemma IdBeforeOfJoinedText(prefix: seq<string>, text: string, id: int, suffix: string, minParts: nat)
    requires 2 <= minParts <= |prefix| + 3
    requires forall i :: 0 <= i < |prefix| ==> IsSegment(prefix[i])
    requires IsSegment(text) && IsSegment(suffix) && Text.ParseLong(text) == Some(id)
    ensures IdBefore(Join(prefix + [text, suffix]), minParts, suffix) == Id(id)
  {
    var segments := prefix + [text, suffix];
    var path := Join(segments);
    var parts := [""] + segments;
    assert Segments(path) == parts by {
      AllSegments(prefix, [text, suffix]);
      SegmentsOfJoin(segments);
    }
    assert |parts| == |prefix| + 3 && parts[|parts| - 1] == suffix && parts[|parts| - 2] == text;
    IdBeforeOfParts(path, minParts, suffix, id);
  }

  /** Two lists of segments concatenate to a list of segments. */
  lemma AllSegments(a: seq<string>, b: seq<string>)
    requires forall i :: 0 <= i < |a| ==> IsSegment(a[i])
    requires forall i :: 0 <= i < |b| ==> IsSegment(b[i])
    ensures forall i :: 0 <= i < |a + b| ==> IsSegment((a + b)[i])
  {
    forall i | 0 <= i < |a + b| ensures IsSegment((a + b)[i]) {
      if i < |a| {
        assert (a + b)[i] == a[i];
      } else {
        assert (a + b)[i] == b[i - |a|];
      }
    }
  }

  /** The path an endpoint is registered under, with a `long` written in
      decimal in front of its last segment, reads back as that `long`. */
  lemma IdBeforeOfJoin(prefix: seq<string>, id: int, suffix: string, minParts: nat)
    requires 2 <= minParts <= |prefix| + 3
    requires forall i :: 0 <= i < |prefix| ==> IsSegment(prefix[i])
    requires IsSegment(suffix) && Text.LongMin <= id <= Text.LongMax
    ensures IdBefore(Join(prefix + [Text.DecimalOf(id), suffix]), minParts, suffix) == Id(id)
  {
    DecimalIsSegment(id);
    Text.ParseLongOfDecimal(id);
    IdBeforeOfJoinedText(prefix, Text.DecimalOf(id), id, suffix, minParts);
  }
}
