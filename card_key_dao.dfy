/** `dnd.server.db.CardKeyDao`: the `card_keys` table as seen by the
    handshake. A lookup keeps only active rows (status 1) and compares the
    card id as the model's string equality; the column's collation (which
    may ignore case) is not modelled. The last-authentication update has no
    status filter. */
module CardKeyDao {
  import opened Wrappers
  import opened Bytes
  import opened Database

  /** A row `findByCardId` can return. */
  predicate IsActive(row: CardRow, cardId: string) {
    row.cardId == cardId && row.status == 1
  }

  /** `findByCardId(cardId)`: `SELECT * ... WHERE card_id = ? AND status = 1`
      through `queryOne`, i.e. the first such row, or `null`. */
  function FindByCardId(cards: seq<CardRow>, cardId: string): (r: Option<CardRow>)
    ensures r.Some? <==> exists i :: 0 <= i < |cards| && IsActive(cards[i], cardId)
    ensures r.Some? ==> r.value in cards && IsActive(r.value, cardId)
  {
    if cards == [] then None
    else if IsActive(cards[0], cardId) then Some(cards[0])
    else
      assert forall i :: 1 <= i < |cards| ==> cards[i] == cards[1..][i - 1];
      FindByCardId(cards[1..], cardId)
  }

  /** `getEncryptedStaticKey(cardId)`: `null` when no active card matches;
      otherwise the pair (encrypted key, IV) of that card. `SELECT *` puts every
      column into the row map, a NULL one included, so the `containsKey` test
      always passes and a NULL column is handed on as `null`. */
  function GetEncryptedStaticKey(cards: seq<CardRow>, cardId: string): (r: Option<(Option<Bytes>, Option<Bytes>)>)
    ensures r.None? <==> FindByCardId(cards, cardId).None?
    ensures r.Some? ==> r.value == (FindByCardId(cards, cardId).value.encryptedKey, FindByCardId(cards, cardId).value.keyIv)
  {
    match FindByCardId(cards, cardId)
    case None => None
    case Some(card) => Some((card.encryptedKey, card.keyIv))
  }

  /** The table after `UPDATE card_keys SET last_auth_at = now WHERE card_id = ?`:
      every row with that id is stamped, whatever its status; nothing else moves. */
  function Touched(cards: seq<CardRow>, cardId: string, now: int): (r: seq<CardRow>)
    ensures |r| == |cards|
    ensures forall i :: 0 <= i < |cards| && cards[i].cardId == cardId ==> r[i] == cards[i].(lastAuthAt := Some(now))
    ensures forall i :: 0 <= i < |cards| && cards[i].cardId != cardId ==> r[i] == cards[i]
  {
    seq(|cards|, i requires 0 <= i < |cards| =>
      if cards[i].cardId == cardId then cards[i].(lastAuthAt := Some(now)) else cards[i])
  }

  /** `updateLastAuth(cardId)` at time `now`. */
  method UpdateLastAuth(db: Db, cardId: string, now: int)
    modifies db`cards
    ensures db.cards == Touched(old(db.cards), cardId, now)
  {
    db.cards := Touched(db.cards, cardId, now);
  }

  // ---------------------------------------------------------------------------
  // Laws

  /** A card whose status is not 1 is never found, however its id matches. */
  lemma InactiveNeverFound(cards: seq<CardRow>, cardId: string)
    requires forall i :: 0 <= i < |cards| && cards[i].cardId == cardId ==> cards[i].status != 1
    ensures FindByCardId(cards, cardId).None?
    ensures GetEncryptedStaticKey(cards, cardId).None?
  {
  }

  /** The id is compared as it is: a card stored as "AB CD" is not found
      under "ABCD", as it would be by a lookup that strips spaces. */
  lemma NoWhitespaceNormalisation(row: CardRow)
    requires row.cardId == "AB CD" && row.status == 1
    ensures FindByCardId([row], "AB CD") == Some(row)
    ensures FindByCardId([row], "ABCD").None?
  {
    assert row.cardId != "ABCD" by {
      assert |row.cardId| == 5;
    }
  }

  /** A revoked card (status other than 1) is stamped by `updateLastAuth` all
      the same, while staying invisible to `findByCardId`. */
  lemma RevokedCardTouched(cards: seq<CardRow>, i: nat, now: int)
    requires i < |cards| && cards[i].status != 1
    ensures Touched(cards, cards[i].cardId, now)[i].lastAuthAt == Some(now)
    ensures Touched(cards, cards[i].cardId, now)[i].status == cards[i].status
  {
  }

  /** Stamping the last authentication does not change which card a lookup
      finds, nor that card's keys: the handshake can be run again. */
  lemma {:induction false} TouchKeepsLookup(cards: seq<CardRow>, cardId: string, other: string, now: int)
    ensures FindByCardId(Touched(cards, cardId, now), other).Some? == FindByCardId(cards, other).Some?
    ensures GetEncryptedStaticKey(Touched(cards, cardId, now), other) == GetEncryptedStaticKey(cards, other)
    decreases |cards|
  {
    var t := Touched(cards, cardId, now);
    if cards != [] {
      assert t[1..] == Touched(cards[1..], cardId, now);
      TouchKeepsLookup(cards[1..], cardId, other, now);
    }
  }
}
