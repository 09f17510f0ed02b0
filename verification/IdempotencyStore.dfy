/** The on-disk ledger of delivered messages: one row per idempotency key, never overwritten. */
module IdempotencyStore {
  import opened Wrappers
  import opened Timestamps

  /** The host's UUID for one outbound request. */
  type Key = nat

  /** The platform's snowflake for one sent message. */
  type MessageId = nat

  type Ledger = map<Key, MessageId>

  /** Insert if absent; the flag says that the key is bound to a different message. */
  function Recorded(l: Ledger, key: Key, id: MessageId): (Ledger, bool) {
    if key in l then (l, l[key] != id) else (l[key := id], false)
  }

  function Found(l: Ledger, key: Key): Option<MessageId> {
    if key in l then Some(l[key]) else None
  }

  /** A row keeps its time as text; the model keeps the time and compares its text. */
  datatype Row = Row(id: MessageId, recordedAt: Stamp)

  class Store {
    /** How long a row is kept, in microseconds. */
    const ttl: nat
    var table: map<Key, Row>

    ghost predicate Valid()
      reads this
    {
      forall k | k in table :: IsValid(table[k].recordedAt)
    }

    ghost function Ids(): Ledger
      reads this
    {
      map k | k in table :: table[k].id
    }

    constructor (ttl: nat)
      ensures Valid() && table == map[] && this.ttl == ttl
    {
      this.ttl := ttl;
      table := map[];
    }

    method Record(key: Key, id: MessageId, now: Stamp) returns (conflict: bool)
      requires Valid() && IsValid(now)
      modifies this
      ensures Valid()
      ensures Ids() == Recorded(old(Ids()), key, id).0
      ensures conflict == Recorded(old(Ids()), key, id).1
      ensures table == if key in old(table) then old(table) else old(table)[key := Row(id, now)]
      ensures conflict <==> key in old(table) && old(table)[key].id != id
    {
      if key in table {
        conflict := table[key].id != id;
      } else {
        table := table[key := Row(id, now)];
        conflict := false;
      }
    }

    method Lookup(key: Key) returns (r: Option<MessageId>)
      ensures r == Found(Ids(), key)
      ensures r.Some? <==> key in table
      ensures key in table ==> r.value == table[key].id
    {
      r := if key in table then Some(table[key].id) else None;
    }

    /** `cutoff` is `now` minus the time to live. Deletes exactly the rows recorded more than that before
        `now`, and counts them. */
    method VacuumExpired(now: Stamp, cutoff: Stamp) returns (pruned: nat)
      requires Valid() && IsValid(cutoff) && IsEarlier(cutoff, now, ttl)
      modifies this
      ensures Valid()
      ensures table == old(table) - Expired(old(table), now, ttl)
      ensures pruned == |Expired(old(table), now, ttl)|
      ensures forall k :: k in table <==> k in old(table) && Instant(old(table)[k].recordedAt) >= Instant(now) - ttl
    {
      TextFindsExpired(table, now, cutoff, ttl);
      var expired := ExpiredByText(table, cutoff);
      table := table - expired;
      pruned := |expired|;
    }
  }

  /** `early` is `age` microseconds before `late`. */
  ghost predicate IsEarlier(early: Stamp, late: Stamp, age: nat) {
    Instant(early) == Instant(late) - age
  }

  /** The keys of the rows that at `now` are older than `age`. */
  ghost function Expired(table: map<Key, Row>, now: Stamp, age: nat): set<Key> {
    set k | k in table && Instant(table[k].recordedAt) < Instant(now) - age
  }

  function ExpiredByText(table: map<Key, Row>, cutoff: Stamp): set<Key> {
    set k | k in table && StoredBefore(table[k].recordedAt, cutoff)
  }

  lemma TextFindsExpired(table: map<Key, Row>, now: Stamp, cutoff: Stamp, age: nat)
    requires IsValid(cutoff) && forall k | k in table :: IsValid(table[k].recordedAt)
    requires IsEarlier(cutoff, now, age)
    ensures ExpiredByText(table, cutoff) == Expired(table, now, age)
  {
    forall k ensures k in ExpiredByText(table, cutoff) <==> k in Expired(table, now, age) {
      if k in table {
        TextOrderIsTimeOrder(table[k].recordedAt, cutoff);
      }
    }
  }
}
