/**
  The expiry map both cooldown stores are built on: subject id to the
  instant (milliseconds or ticks) its entry ends. An entry is live strictly
  before its end; reads evict an expired entry, sweeps evict all of them.
 */
module Expiry {

  import opened Host

  /** An entry exists for `id` and `now` is before its end. */
  predicate IsLive(m: map<Uuid, int>, id: Uuid, now: int) {
    id in m && now < m[id]
  }

  /** The map after a read at `now`: the entry for `id` is dropped if it has expired, nothing else changes. */
  function AfterRead(m: map<Uuid, int>, id: Uuid, now: int): (r: map<Uuid, int>)
    ensures IsLive(r, id, now) <==> IsLive(m, id, now)
    ensures id in r <==> IsLive(m, id, now)
    ensures forall k :: k != id ==> (k in r <==> k in m)
    ensures forall k :: k in r ==> r[k] == m[k]
  {
    if id in m && now >= m[id] then m - {id} else m
  }

  /** Reading twice at the same instant changes nothing more than reading once. */
  lemma AfterReadIdempotent(m: map<Uuid, int>, id: Uuid, now: int)
    ensures AfterRead(AfterRead(m, id, now), id, now) == AfterRead(m, id, now)
  {
  }

  /**
    The sweep: walks the entries and removes, through the iterator, every one
    whose value fails `keep`; the others stay with their values.
   */
  method KeepWhere(m: map<Uuid, int>, keep: int -> bool) returns (r: map<Uuid, int>)
    ensures forall k :: k in r <==> k in m && keep(m[k])
    ensures forall k :: k in r ==> r[k] == m[k]
  {
    r := m;
    var pending := m.Keys;
    while pending != {}
      invariant pending <= m.Keys
      invariant forall k :: k in r ==> k in m && r[k] == m[k]
      invariant forall k :: k in pending ==> k in r
      invariant forall k :: k in m && k !in pending ==> (k in r <==> keep(m[k]))
      decreases pending
    {
      var k :| k in pending;
      if !keep(m[k]) {
        r := r - {k};
      }
      pending := pending - {k};
    }
  }

  /** Ids whose entry is still live at `now`. */
  function LiveKeys(m: map<Uuid, int>, now: int): set<Uuid> {
    set k | k in m && now < m[k]
  }

  /** Ids whose entry has expired at `now` but is still stored. */
  function ExpiredKeys(m: map<Uuid, int>, now: int): set<Uuid> {
    set k | k in m && now >= m[k]
  }

  /** The raw size of the map counts the live entries and the expired ones not yet swept. */
  lemma SizeSplits(m: map<Uuid, int>, now: int)
    ensures |m| == |LiveKeys(m, now)| + |ExpiredKeys(m, now)|
  {
    assert m.Keys == LiveKeys(m, now) + ExpiredKeys(m, now);
    assert LiveKeys(m, now) !! ExpiredKeys(m, now);
  }

  /**
    Setting an entry of `n` units at `now` makes it live at once exactly when
    n > 0, and it stays live until `now + n`, not after.
   */
  lemma SetThenLive(m: map<Uuid, int>, id: Uuid, now: int, n: int, later: int)
    requires now <= later
    ensures IsLive(m[id := now + n], id, now) <==> n > 0
    ensures IsLive(m[id := now + n], id, later) <==> later < now + n
  {
  }
}
