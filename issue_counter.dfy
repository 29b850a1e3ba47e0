/** `dnd.server.endpoints.GetIssueCounterEndpoint`
    (`GET /api/cards/issue-counter/:cardType`): the next issue counter for a
    card type. A card id is hex; its byte 1 is the card type and bytes 2..3
    the counter, big-endian. The endpoint scans the active cards for the
    largest counter of the type and answers one more, in Java `short`
    arithmetic. */
module IssueCounter {
  import opened Wrappers
  import opened Bytes
  import opened Database
  import opened Json
  import opened Responses
  import Text
  import Hex
  import Paths
  import Numeric

  const ShortMax: int := 32767
  const ShortMin: int := -32768
  const Active: int := 1

  /** The counter in bytes `hi`, `lo`: a `short` as the endpoint reads it
      (`signed`), or the unsigned 16-bit number. */
  function Counter16(hi: byte, lo: byte, signed: bool): (r: int)
    ensures !signed ==> 0 <= r <= 0xFFFF
    ensures signed ==> ShortMin <= r <= ShortMax
    ensures signed && hi < 0x80 ==> r == hi as int * 256 + lo as int
    ensures signed && hi >= 0x80 ==> r == hi as int * 256 + lo as int - 0x1_0000
  {
    if signed then Numeric.WrapShort(hi as int * 256 + lo as int) else hi as int * 256 + lo as int
  }

  /** `SELECT card_id FROM card_keys WHERE status = 1`. */
  function ActiveCards(cards: seq<CardRow>): (r: seq<CardRow>)
    ensures forall c :: c in r <==> c in cards && c.status == Active
  {
    if cards == [] then []
    else (if cards[0].status == Active then [cards[0]] else []) + ActiveCards(cards[1..])
  }

  /** The counter a card row contributes for `cardType`: only an id of at
      least 8 characters that decodes to at least 4 bytes with byte 1 equal to
      `cardType`; an id that fails to decode is skipped. */
  function Contribution(row: CardRow, cardType: int, signed: bool): (r: Option<int>)
    ensures r.Some? && !signed ==> 0 <= r.value <= 0xFFFF
    ensures r.Some? && signed ==> ShortMin <= r.value <= ShortMax
  {
    if |row.cardId| < 8 then None
    else match Hex.Decode(Some(row.cardId))
      case Failure(_) => None
      case Success(b) => if |b| >= 4 && Signed(b[1]) == cardType then Some(Counter16(b[2], b[3], signed)) else None
  }

  /** The contribution of each row, in order (`CountersAt` gives each). */
  function Counters(rows: seq<CardRow>, cardType: int, signed: bool): (cs: seq<Option<int>>)
    ensures |cs| == |rows|
  {
    if rows == [] then [] else [Contribution(rows[0], cardType, signed)] + Counters(rows[1..], cardType, signed)
  }

  lemma {:induction false} CountersAt(rows: seq<CardRow>, cardType: int, signed: bool, i: nat)
    requires i < |rows|
    ensures Counters(rows, cardType, signed)[i] == Contribution(rows[i], cardType, signed)
  {
    if i > 0 {
      CountersAt(rows[1..], cardType, signed, i - 1);
    }
  }

  /** `c` is above every counter in `cs`. */
  predicate Exceeds(cs: seq<Option<int>>, c: int) {
    forall i :: 0 <= i < |cs| && cs[i].Some? ==> cs[i].value < c
  }

  /** `maxCounter` after the scan: 0, raised to each larger counter. */
  function MaxOf(cs: seq<Option<int>>): (r: int)
    ensures r >= 0
    ensures forall i :: 0 <= i < |cs| && cs[i].Some? ==> cs[i].value <= r
    ensures r == 0 || Some(r) in cs
  {
    if cs == [] then 0
    else
      var front := cs[..|cs| - 1];
      assert forall i :: 0 <= i < |front| ==> front[i] == cs[i];
      var m := MaxOf(front);
      var c := cs[|cs| - 1];
      if c.Some? && c.value > m then c.value else m
  }

  /** The largest counter of the type among `rows`, and its bound. */
  function MaxCounter(rows: seq<CardRow>, cardType: int, signed: bool): (r: int)
    ensures 0 <= r <= if signed then ShortMax else 0xFFFF
    ensures Exceeds(Counters(rows, cardType, signed), r + 1)
  {
    var cs := Counters(rows, cardType, signed);
    var m := MaxOf(cs);
    assert m <= if signed then ShortMax else 0xFFFF by {
      if m > 0 {
        var i :| 0 <= i < |cs| && cs[i] == Some(m);
        CountersAt(rows, cardType, signed, i);
      }
    }
    m
  }

  /** The `counter` of a 200 payload. */
  function ReportedCounter(r: Response): Option<int> {
    if r.data.VObj? && "counter" in r.data.fields && r.data.fields["counter"].VInt? then Some(r.data.fields["counter"].i)
    else None
  }

  function CounterData(c: int): Value {
    VObj(map["counter" := VInt(c)])
  }

  /** The card type of the path, when it has at least four segments and the
      last is a `byte`. */
  function CardTypeOf(path: string): (r: Option<int>)
    ensures r.Some? ==> -128 <= r.value <= 127
  {
    var parts := Paths.Segments(path);
    if |parts| < 4 then None else Text.ParseByte(parts[|parts| - 1])
  }

  /** The end of `handle`: the answer for the largest counter found, in
      `short` arithmetic. For a maximum a `short` can hold, the overflow
      branch never fires and the answer is one more, except that one more
      than 32767 wraps to -32768. */
  function Reply(maxCounter: int, cardType: int): (r: Response)
    ensures ShortMin <= maxCounter <= ShortMax ==>
              r.statusCode == 200 && ReportedCounter(r) == Some(if maxCounter < ShortMax then maxCounter + 1 else ShortMin)
  {
    assert ShortMin <= maxCounter < ShortMax ==> Numeric.WrapShort(maxCounter + 1) == maxCounter + 1 by {
      if ShortMin <= maxCounter <= ShortMax { Numeric.ShortIncrement(maxCounter); }
    }
    assert maxCounter == ShortMax ==> Numeric.WrapShort(maxCounter + 1) == ShortMin by {
      if maxCounter == ShortMax { Numeric.ShortIncrement(maxCounter); }
    }
    if maxCounter >= 65535 then Error(500, "Issue counter overflow for card type: " + Text.DecimalOf(cardType))
    else Responses.Success(CounterData(Numeric.WrapShort(maxCounter + 1)))
  }

  /** The answer once the card type is known: a 200 whose counter is above
      every counter of the type in use, unless one already holds 32767 and
      the answer has wrapped to -32768. */
  function NextCounterResponse(rows: seq<CardRow>, cardType: int): (r: Response)
    ensures r.statusCode == 200 && ReportedCounter(r).Some?
    ensures var c := ReportedCounter(r).value;
            && ShortMin <= c <= ShortMax
            && (Exceeds(Counters(rows, cardType, true), c) || (c == ShortMin && MaxCounter(rows, cardType, true) == ShortMax))
  {
    Reply(MaxCounter(rows, cardType, true), cardType)
  }

  /** `handle(request)`: 400 for a path too short or a card type that is not
      a `byte`, otherwise the next counter over the active cards. */
  function Answer(cards: seq<CardRow>, path: string): (r: Response)
    ensures |Paths.Segments(path)| < 4 ==> r == BadRequest("cardType is required")
    ensures |Paths.Segments(path)| >= 4 && CardTypeOf(path).None? ==> r == BadRequest("Invalid cardType")
    ensures CardTypeOf(path).Some? ==> r == NextCounterResponse(ActiveCards(cards), CardTypeOf(path).value)
  {
    var parts := Paths.Segments(path);
    if |parts| < 4 then BadRequest("cardType is required")
    else match Text.ParseByte(parts[|parts| - 1])
      case None => BadRequest("Invalid cardType")
      case Some(cardType) => NextCounterResponse(ActiveCards(cards), cardType)
  }

  /** One row of the scan: the `try` block that decodes the id and reads its
      counter, or skips the row. */
  method ReadCounter(rows: seq<CardRow>, i: nat, cardType: int) returns (c: Option<int>)
    requires i < |rows|
    ensures c == Counters(rows, cardType, true)[i]
  {
    CountersAt(rows, cardType, true, i);
    var row := rows[i];
    c := None;
    if |row.cardId| >= 8 {
      var bytes := Hex.HexToBytes(Some(row.cardId));
      if bytes.Success? && |bytes.value| >= 4 && Signed(bytes.value[1]) == cardType {
        c := Some(Numeric.WrapShort(bytes.value[2] as int * 256 + bytes.value[3] as int));
      }
    }
  }

  /** The loop over the active rows. */
  method ScanMax(rows: seq<CardRow>, cardType: int) returns (maxCounter: int)
    ensures maxCounter == MaxCounter(rows, cardType, true)
  {
    ghost var cs := Counters(rows, cardType, true);
    maxCounter := 0;
    for i := 0 to |rows|
      invariant maxCounter == MaxOf(cs[..i])
    {
      var counter := ReadCounter(rows, i, cardType);
      assert cs[..i + 1] == cs[..i] + [counter];
      if counter.Some? && counter.value > maxCounter {
        maxCounter := counter.value;
      }
    }
    assert cs[..|rows|] == cs;
  }

  /** The scan over the active cards and the reply. */
  method Next(db: Db, cardType: int) returns (r: Response)
    ensures r == NextCounterResponse(ActiveCards(db.cards), cardType)
  {
    var maxCounter := ScanMax(ActiveCards(db.cards), cardType);
    if maxCounter >= 65535 {
      // The overflow branch: a `short` maximum never reaches 65535.
      assert false;
    }
    r := Responses.Success(CounterData(Numeric.WrapShort(maxCounter + 1)));
  }

  /** `handle(request)` on the database `db`. */
  method Handle(db: Db, request: Request) returns (r: Response)
    ensures r == Answer(db.cards, request.path)
  {
    var parts := Paths.Segments(request.path);
    if |parts| < 4 {
      return BadRequest("cardType is required");
    }
    var parsed := Text.ParseByte(parts[|parts| - 1]);
    if parsed.None? {
      return BadRequest("Invalid cardType");
    }
    r := Next(db, parsed.value);
  }

  /** The end of `handle` with the counter read unsigned, as the overflow
      check at 65535 implies. */
  function IntendedReply(maxCounter: int, cardType: int): (r: Response)
    ensures 0 <= maxCounter < 0xFFFF ==> r.statusCode == 200 && ReportedCounter(r) == Some(maxCounter + 1)
    ensures maxCounter >= 0xFFFF ==> r.statusCode == 500
  {
    if maxCounter >= 0xFFFF then Error(500, "Issue counter overflow for card type: " + Text.DecimalOf(cardType))
    else Responses.Success(CounterData(maxCounter + 1))
  }

  /** The corrected answer once the card type is known: always above every
      counter in use, and the overflow error exactly when a card already
      holds 65535. */
  function IntendedNextCounterResponse(rows: seq<CardRow>, cardType: int): (r: Response)
    ensures r.statusCode == 200 || r.statusCode == 500
    ensures r.statusCode == 200 ==>
              && ReportedCounter(r).Some?
              && var c := ReportedCounter(r).value;
              && 1 <= c <= 0xFFFF && Exceeds(Counters(rows, cardType, false), c)
    ensures r.statusCode == 500 <==> Some(0xFFFF) in Counters(rows, cardType, false)
  {
    var m := MaxCounter(rows, cardType, false);
    var cs := Counters(rows, cardType, false);
    assert Some(0xFFFF) in cs ==> m == 0xFFFF by {
      if Some(0xFFFF) in cs {
        var i :| 0 <= i < |cs| && cs[i] == Some(0xFFFF);
      }
    }
    assert m == 0xFFFF ==> Some(0xFFFF) in cs by {
      assert m == MaxOf(cs);
    }
    IntendedReply(m, cardType)
  }

  /** `handle(request)` with the corrected counter. */
  function IntendedAnswer(cards: seq<CardRow>, path: string): (r: Response)
    ensures CardTypeOf(path).None? ==> r == Answer(cards, path)
    ensures CardTypeOf(path).Some? ==> r == IntendedNextCounterResponse(ActiveCards(cards), CardTypeOf(path).value)
  {
    match CardTypeOf(path)
    case None => Answer(cards, path)
    case Some(cardType) => IntendedNextCounterResponse(ActiveCards(cards), cardType)
  }

  // ---------------------------------------------------------------------------
  // Laws

  /** The request path `/api/cards/issue-counter/<cardType>`. */
  function CounterPath(cardType: int): string {
    Paths.Join(["api", "cards", "issue-counter", Text.DecimalOf(cardType)])
  }

  lemma CounterPathReadsBack(cardType: int)
    requires -128 <= cardType <= 127
    ensures CardTypeOf(CounterPath(cardType)) == Some(cardType)
  {
    var segments := ["api", "cards", "issue-counter", Text.DecimalOf(cardType)];
    Paths.DecimalIsSegment(cardType);
    Paths.SegmentsOfJoin(segments);
    Text.ParseLongOfDecimal(cardType);
  }

  /** With no card of the type in use, the first counter is 1. */
  lemma FirstCounterIsOne(cards: seq<CardRow>, cardType: int)
    requires -128 <= cardType <= 127
    requires forall i :: 0 <= i < |cards| ==> Contribution(cards[i], cardType, true).None?
    ensures ReportedCounter(Answer(cards, CounterPath(cardType))) == Some(1)
  {
    CounterPathReadsBack(cardType);
    var rows := ActiveCards(cards);
    var cs := Counters(rows, cardType, true);
    forall i | 0 <= i < |cs| ensures cs[i].None? {
      var k :| 0 <= k < |cards| && cards[k] == rows[i];
      CountersAt(rows, cardType, true, i);
    }
    assert MaxOf(cs) == 0;
  }

  /** An active card whose id is the hex of `bytes`. */
  function CardWith(bytes: Bytes): CardRow {
    CardRow(Hex.Encode(bytes, true), Active, None, None, None, None)
  }

  /** A card of type 1 contributes the counter in its bytes 2..3. */
  lemma CardCounter(hi: byte, lo: byte, signed: bool)
    ensures Contribution(CardWith([0, 1, hi, lo]), 1, signed) == Some(Counter16(hi, lo, signed))
  {
    Hex.DecodeEncode([0, 1, hi, lo], true);
  }

  /** The two cards of type 1 with counters 7F FF and 80 00. */
  lemma TwoCards()
    ensures var first := [CardWith([0, 1, 0x7F, 0xFF])];
            var second := first + [CardWith([0, 1, 0x80, 0x00])];
            && ActiveCards(first) == first && ActiveCards(second) == second
            && Counters(first, 1, true) == [Some(ShortMax)]
            && Counters(first, 1, false) == [Some(0x7FFF)]
            && Counters(second, 1, true) == [Some(ShortMax), Some(ShortMin)]
            && Counters(second, 1, false) == [Some(0x7FFF), Some(0x8000)]
  {
    var first := [CardWith([0, 1, 0x7F, 0xFF])];
    var second := first + [CardWith([0, 1, 0x80, 0x00])];
    CardCounter(0x7F, 0xFF, true);
    CardCounter(0x7F, 0xFF, false);
    CardCounter(0x80, 0x00, true);
    CardCounter(0x80, 0x00, false);
    CountersAt(first, 1, true, 0);
    CountersAt(first, 1, false, 0);
    CountersAt(second, 1, true, 0);
    CountersAt(second, 1, true, 1);
    CountersAt(second, 1, false, 0);
    CountersAt(second, 1, false, 1);
    assert second[1..] == [second[1]];
    assert ActiveCards(first) == first;
    assert ActiveCards(second) == second;
  }

  /** After a card of type 1 with counter 0x7FFF, the endpoint answers
      -32768, which a new id stores as bytes 80 00; with that card in use the
      answer is -32768 again, so two cards receive the same counter. The
      unsigned reading answers 32768 and then 32769. */
  lemma CounterRepeatsAfterWrap()
    ensures var first := [CardWith([0, 1, 0x7F, 0xFF])];
            var second := first + [CardWith([0, 1, 0x80, 0x00])];
            && ReportedCounter(Answer(first, CounterPath(1))) == Some(ShortMin)
            && Contribution(second[1], 1, true) == Some(ShortMin)
            && ReportedCounter(Answer(second, CounterPath(1))) == Some(ShortMin)
            && ReportedCounter(IntendedAnswer(first, CounterPath(1))) == Some(0x8000)
            && ReportedCounter(IntendedAnswer(second, CounterPath(1))) == Some(0x8001)
  {
    CounterPathReadsBack(1);
    TwoCards();
    var first := [CardWith([0, 1, 0x7F, 0xFF])];
    var second := first + [CardWith([0, 1, 0x80, 0x00])];
    CountersAt(second, 1, true, 1);
    assert MaxCounter(first, 1, true) == ShortMax;
    assert MaxCounter(second, 1, true) == ShortMax;
    assert MaxCounter(first, 1, false) == 0x7FFF;
    assert MaxCounter(second, 1, false) == 0x8000;
  }
}
