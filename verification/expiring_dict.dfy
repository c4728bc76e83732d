/**
 A dictionary whose entries carry an expiry time point.

 Each key maps to a pair of its value and the time point at which it expires.
 Reading ignores expiry; only an explicit `Expire` call removes entries, and
 it removes exactly those whose expiry is not strictly later than the time it
 is given. The clock is not modelled: every operation that reads the clock
 takes the sampled time point `now` as a parameter instead.
 */
module ExpiringDict {
  import opened Wrappers

  /** A point in time. Time points are ordered and a duration can be added. */
  type Time = int

  /** A time-to-live: a non-negative span of time. */
  type Duration = nat

  /** What the dictionary stores for one key. */
  datatype Entry<V> = Entry(value: V, expiry: Time)

  /** The dictionary: the time-to-live used by `Insert`, and the entries. */
  datatype Dict<K, V> = Dict(defaultTtl: Duration, container: map<K, Entry<V>>)

  /** The dictionary after an insertion, and the value the insertion displaced. */
  datatype Inserted<K, V> = Inserted(dict: Dict<K, V>, previous: Option<V>)

  /** An empty dictionary with the given default time-to-live. */
  function New<K, V>(defaultTtl: Duration): (d: Dict<K, V>)
    ensures d.defaultTtl == defaultTtl
    ensures d.container.Keys == {}
  {
    Dict(defaultTtl, map[])
  }

  /**
   The value stored under `k`, whether or not its expiry has passed;
   `None` exactly when `k` is absent.
   */
  function Get<K, V>(d: Dict<K, V>, k: K): (r: Option<V>)
    ensures r.None? <==> k !in d.container
    ensures r.Some? ==> r.value == d.container[k].value
  {
    if k in d.container then Some(d.container[k].value) else None
  }

  /**
   Stores `v` under `k` to expire at `now + ttl`, replacing any entry the key
   had, and returns the value that entry held.
   */
  function InsertWithTtl<K, V>(d: Dict<K, V>, k: K, v: V, ttl: Duration, now: Time): (r: Inserted<K, V>)
    ensures r.dict.defaultTtl == d.defaultTtl
    ensures r.dict.container.Keys == d.container.Keys + {k}
    ensures r.dict.container[k] == Entry(v, now + ttl)
    ensures r.dict.container[k].expiry > now <==> ttl > 0
    ensures forall k' :: k' in d.container && k' != k ==> r.dict.container[k'] == d.container[k']
    ensures r.previous.None? <==> k !in d.container
    ensures r.previous.Some? ==> r.previous.value == d.container[k].value
  {
    var previous := if k in d.container then Some(d.container[k].value) else None;
    Inserted(Dict(d.defaultTtl, d.container[k := Entry(v, now + ttl)]), previous)
  }

  /** `InsertWithTtl` with the dictionary's default time-to-live. */
  function Insert<K, V>(d: Dict<K, V>, k: K, v: V, now: Time): (r: Inserted<K, V>)
    ensures r.dict.defaultTtl == d.defaultTtl
    ensures r.dict.container.Keys == d.container.Keys + {k}
    ensures r.dict.container[k] == Entry(v, now + d.defaultTtl)
    ensures forall k' :: k' in d.container && k' != k ==> r.dict.container[k'] == d.container[k']
    ensures r.previous.None? <==> k !in d.container
    ensures r.previous.Some? ==> r.previous.value == d.container[k].value
  {
    InsertWithTtl(d, k, v, d.defaultTtl, now)
  }

  /** The dictionary with every entry whose expiry is at or before `now` removed. */
  function Expire<K, V>(d: Dict<K, V>, now: Time): (r: Dict<K, V>)
    ensures r.defaultTtl == d.defaultTtl
    ensures r.container.Keys <= d.container.Keys
    ensures forall k :: k in d.container ==> (k in r.container <==> d.container[k].expiry > now)
    ensures forall k :: k in r.container ==> r.container[k] == d.container[k]
    ensures forall k :: k in d.container && d.container[k].expiry <= now ==> Get(r, k) == None
  {
    Dict(d.defaultTtl, map k | k in d.container && d.container[k].expiry > now :: d.container[k])
  }

  /**
   The removal pass of `Expire` as a scan over the keys, retaining each entry
   that is live at `now`; it computes the same dictionary as `Expire`.
   */
  method ExpireSweep<K, V>(d: Dict<K, V>, now: Time) returns (r: Dict<K, V>)
    ensures r == Expire(d, now)
  {
    var kept: map<K, Entry<V>> := map[];
    var todo := d.container.Keys;
    while todo != {}
      invariant todo <= d.container.Keys
      invariant kept.Keys == set k | k in d.container && k !in todo && d.container[k].expiry > now
      invariant forall k :: k in kept ==> kept[k] == d.container[k]
      decreases todo
    {
      var k :| k in todo;
      if d.container[k].expiry > now {
        kept := kept[k := d.container[k]];
      }
      todo := todo - {k};
    }
    r := Dict(d.defaultTtl, kept);
  }
}
