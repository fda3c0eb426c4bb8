/**
  The node-cache store the server keeps its merged list in. Each entry holds
  a value and the instant it expires: `set` stamps it with the current time
  plus the standard TTL in milliseconds, or with 0 (never) when the TTL is 0.
  `get` returns the value while the current time has not passed that instant,
  and deletes the entry once it has. The clock is a parameter of each call.
*/
module Cache {
  import opened Wrappers

  datatype Entry<V> = Entry(value: V, expiresAt: int)

  /** The expiry `set` stamps: `now + ttl * 1000`, or 0 (never) for a TTL of 0. */
  function Expiry(now: int, ttlSeconds: nat): int {
    if ttlSeconds == 0 then 0 else now + ttlSeconds * 1000
  }

  /** An entry is live unless it has an expiry and the clock is past it. */
  predicate Live<V>(e: Entry<V>, now: int) {
    e.expiresAt == 0 || now <= e.expiresAt
  }

  /** What `get` answers: the stored value while its entry is live, else nothing. */
  function Lookup<V>(entries: map<string, Entry<V>>, key: string, now: int): Option<V> {
    if key in entries && Live(entries[key], now) then Some(entries[key].value) else None
  }

  class NodeCache<V> {
    var entries: map<string, Entry<V>>
    const stdTtl: nat

    /** `new NodeCache({ stdTTL })`: an empty store. */
    constructor(stdTtl: nat)
      ensures entries == map[] && this.stdTtl == stdTtl
    {
      entries := map[];
      this.stdTtl := stdTtl;
    }

    /** `get(key)`: the live value, if any; an expired entry is deleted on the way. */
    method Get(key: string, now: int) returns (r: Option<V>)
      modifies this
      ensures r == Lookup(old(entries), key, now)
      ensures entries == if key in old(entries) && r.None? then old(entries) - {key} else old(entries)
    {
      if key in entries {
        if Live(entries[key], now) {
          r := Some(entries[key].value);
        } else {
          entries := entries - {key};
          r := None;
        }
      } else {
        r := None;
      }
    }

    /** `set(key, value)` with the standard TTL, replacing any entry under that key. */
    method Set(key: string, value: V, now: int)
      modifies this
      ensures entries == old(entries)[key := Entry(value, Expiry(now, stdTtl))]
    {
      entries := entries[key := Entry(value, Expiry(now, stdTtl))];
    }
  }

  /**
    A value set at `now` (a clock reading not before the epoch) with a
    positive TTL is served exactly until `now + ttl * 1000`, the last
    millisecond included, and not after.
  */
  lemma ServedUntilExpiry<V>(entries: map<string, Entry<V>>, key: string, value: V, now: int, later: int, ttlSeconds: nat)
    requires now >= 0 && ttlSeconds > 0
    ensures Lookup(entries[key := Entry(value, Expiry(now, ttlSeconds))], key, later)
      == if later <= now + ttlSeconds * 1000 then Some(value) else None
  {
  }

  /** Setting one key leaves what every other key answers unchanged. */
  lemma OtherKeysUnchanged<V>(entries: map<string, Entry<V>>, key: string, value: V, expiresAt: int, other: string, now: int)
    requires other != key
    ensures Lookup(entries[key := Entry(value, expiresAt)], other, now) == Lookup(entries, other, now)
  {
  }

  /** Deleting an expired entry changes no answer: it was not served anyway. */
  lemma DeleteExpiredUnchanged<V>(entries: map<string, Entry<V>>, key: string, now: int, later: int)
    requires key in entries && !Live(entries[key], now) && now <= later
    ensures Lookup(entries - {key}, key, later) == Lookup(entries, key, later) == None
  {
  }
}
