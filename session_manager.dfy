/** `dnd.server.service.SessionManager`: the temporary sessions that carry a
    card's handshake state from start to complete, kept in a map and evicted
    lazily, on the first read after they are more than five minutes old. The
    clock is the explicit parameter `now` (milliseconds). */
module Sessions {
  import opened Wrappers
  import opened Bytes

  /** `SESSION_TIMEOUT`: five minutes in milliseconds. */
  const SessionTimeout: int := 5 * 60 * 1000

  /** `SessionManager.AuthSession`: what start hands to verify and complete.
      `createdAt` is fixed when the session object is built. */
  datatype AuthSession = AuthSession(
    cardId: string,
    staticKey: Bytes,
    publicKey: Option<Bytes>,
    challengeServer: Bytes,
    createdAt: int)

  /** `new AuthSession(cardId, staticKey, publicKeyBytes, challengeServer)` at time `now`. */
  function NewSession(cardId: string, staticKey: Bytes, publicKey: Option<Bytes>, challengeServer: Bytes, now: int): (s: AuthSession)
    ensures s.createdAt == now && s.cardId == cardId && s.staticKey == staticKey
    ensures s.publicKey == publicKey && s.challengeServer == challengeServer
  {
    AuthSession(cardId, staticKey, publicKey, challengeServer, now)
  }

  /** The timeout test of `getSession`: strictly older than the timeout. */
  predicate Expired(s: AuthSession, now: int) {
    now - s.createdAt > SessionTimeout
  }

  /** `getSession(id)` on the map `m` at time `now`: the session (if present
      and not expired) and the map afterwards, which has lost `id` exactly
      when the session there had expired. */
  function Lookup(m: map<string, AuthSession>, id: string, now: int): (r: (Option<AuthSession>, map<string, AuthSession>))
    ensures r.0.Some? <==> id in m && !Expired(m[id], now)
    ensures r.0.Some? ==> r.0.value == m[id]
    ensures r.1.Keys <= m.Keys && forall k :: k in r.1 ==> r.1[k] == m[k]
    ensures forall k :: k in m && k != id ==> k in r.1
    ensures id in r.1 <==> r.0.Some?
  {
    if id !in m then (None, m)
    else if Expired(m[id], now) then (None, m - {id})
    else (Some(m[id]), m)
  }

  /** The shared store. */
  class Store {
    var sessions: map<string, AuthSession>

    constructor()
      ensures sessions == map[]
    {
      sessions := map[];
    }

    /** `putSession(id, s)`: stores `s`, replacing whatever was under `id`. */
    method Put(id: string, s: AuthSession)
      modifies this
      ensures sessions == old(sessions)[id := s]
    {
      sessions := sessions[id := s];
    }

    /** `getSession(id)`: may evict the entry it reads. */
    method Get(id: string, now: int) returns (r: Option<AuthSession>)
      modifies this
      ensures (r, sessions) == Lookup(old(sessions), id, now)
    {
      if id !in sessions {
        return None;
      }
      var session := sessions[id];
      if now - session.createdAt > SessionTimeout {
        sessions := sessions - {id};
        return None;
      }
      return Some(session);
    }

    /** `removeSession(id)`. */
    method Remove(id: string)
      modifies this
      ensures sessions == old(sessions) - {id}
    {
      sessions := sessions - {id};
    }
  }

  // ---------------------------------------------------------------------------
  // Laws of the store

  /** A stored session is read back, unchanged and without eviction, for as
      long as it is at most five minutes old. */
  lemma PutThenGet(m: map<string, AuthSession>, id: string, s: AuthSession, now: int)
    requires now - s.createdAt <= SessionTimeout
    ensures Lookup(m[id := s], id, now) == (Some(s), m[id := s])
  {
  }

  /** Exactly five minutes old is still alive; one millisecond more and the
      read returns nothing and evicts the entry. */
  lemma TimeoutBoundary(m: map<string, AuthSession>, id: string, s: AuthSession)
    ensures Lookup(m[id := s], id, s.createdAt + 300000).0 == Some(s)
    ensures Lookup(m[id := s], id, s.createdAt + 300001) == (None, m[id := s] - {id})
  {
  }

  /** Reading an unknown id returns nothing and changes nothing. */
  lemma UnknownLeavesStore(m: map<string, AuthSession>, id: string, now: int)
    requires id !in m
    ensures Lookup(m, id, now) == (None, m)
  {
  }

  /** After a removal the id reads as absent; removing an absent id is a no-op. */
  lemma RemoveThenGet(m: map<string, AuthSession>, id: string, now: int)
    ensures Lookup(m - {id}, id, now) == (None, m - {id})
    ensures id !in m ==> m - {id} == m
  {
  }

  /** Every operation touches only its own key. */
  lemma OthersUntouched(m: map<string, AuthSession>, id: string, k: string, s: AuthSession, now: int)
    requires k != id && k in m
    ensures k in m[id := s] && m[id := s][k] == m[k]
    ensures k in m - {id} && (m - {id})[k] == m[k]
    ensures k in Lookup(m, id, now).1 && Lookup(m, id, now).1[k] == m[k]
  {
  }

  /** Putting back a session that was read does not renew it: its expiry is
      still measured from its original `createdAt`. */
  lemma RePutKeepsAge(m: map<string, AuthSession>, id: string, now: int, later: int)
    requires Lookup(m, id, now).0.Some?
    ensures var s := Lookup(m, id, now).0.value;
      Lookup(m[id := s], id, later).0.Some? <==> later - m[id].createdAt <= SessionTimeout
  {
  }

  /** Storing under an id and then removing that id forgets the stored value
      and whatever the id held before. */
  lemma PutThenRemove(m: map<string, AuthSession>, id: string, s: AuthSession)
    ensures m[id := s] - {id} == m - {id}
  {
  }

  /** Reading twice at the same time gives the same answer, and the second
      read changes nothing: eviction is idempotent. */
  lemma LookupIdempotent(m: map<string, AuthSession>, id: string, now: int)
    ensures var (r, m1) := Lookup(m, id, now);
      Lookup(m1, id, now) == (r, m1)
  {
  }
}
