/**
 Properties that relate the dictionary's operations to each other: reading
 back what was inserted, overwriting, the strict expiry boundary, and the
 algebra of repeated expiry passes.
 */
module Properties {
  import opened Wrappers
  import opened ExpiringDict

  /** `m` is contained in `big`: every key of `m` is in `big` with the same entry. */
  ghost predicate SubDict<K, V>(m: map<K, Entry<V>>, big: map<K, Entry<V>>) {
    forall k :: k in m ==> k in big && m[k] == big[k]
  }

  /** A fresh key: the insertion displaces nothing and the key reads back the value. */
  lemma InsertFreshThenGet<K, V>(d: Dict<K, V>, k: K, v: V, now: Time)
    requires Get(d, k) == None
    ensures Insert(d, k, v, now).previous == None
    ensures Get(Insert(d, k, v, now).dict, k) == Some(v)
  {
  }

  /**
   After `InsertWithTtl`, the inserted key reads back the new value and every
   other key reads back what it did before.
   */
  lemma GetAfterInsertWithTtl<K, V>(d: Dict<K, V>, k: K, v: V, ttl: Duration, now: Time, k': K)
    ensures Get(InsertWithTtl(d, k, v, ttl, now).dict, k') == if k' == k then Some(v) else Get(d, k')
  {
  }

  /**
   Inserting twice under one key: the second insertion returns the first value,
   and both the value and the expiry of the first insertion are discarded.
   */
  lemma OverwriteReturnsPrevious<K, V>(d: Dict<K, V>, k: K, v1: V, ttl1: Duration, t1: Time,
                                       v2: V, ttl2: Duration, t2: Time)
    ensures var d1 := InsertWithTtl(d, k, v1, ttl1, t1).dict;
            var r := InsertWithTtl(d1, k, v2, ttl2, t2);
            && r.previous == Some(v1)
            && Get(r.dict, k) == Some(v2)
            && r.dict.container[k].expiry == t2 + ttl2
  {
  }

  /** `Insert` and `InsertWithTtl` differ only in which time-to-live sets the expiry. */
  lemma InsertUsesDefaultTtl<K, V>(d: Dict<K, V>, k: K, v: V, ttl: Duration, now: Time)
    ensures Insert(d, k, v, now).previous == InsertWithTtl(d, k, v, ttl, now).previous
    ensures Insert(d, k, v, now).dict.container[k].expiry - InsertWithTtl(d, k, v, ttl, now).dict.container[k].expiry
            == d.defaultTtl - ttl
    ensures Insert(d, k, v, now).dict.container.Keys == InsertWithTtl(d, k, v, ttl, now).dict.container.Keys
    ensures Insert(d, k, v, now).dict.container[k].value == InsertWithTtl(d, k, v, ttl, now).dict.container[k].value == v
    ensures Insert(d, k, v, now).dict.container - {k} == InsertWithTtl(d, k, v, ttl, now).dict.container - {k}
  {
  }

  /**
   `Get` does not look at expiry: an entry whose expiry has passed still reads
   back until an `Expire` at or after that expiry removes it.
   */
  lemma StaleUntilExpired<K, V>(d: Dict<K, V>, k: K, now: Time)
    requires k in d.container && d.container[k].expiry <= now
    ensures Get(d, k) == Some(d.container[k].value)
    ensures Get(Expire(d, now), k) == None
  {
  }

  /** What `Get` returns after an `Expire`: the old value if and only if the entry was live. */
  lemma GetAfterExpire<K, V>(d: Dict<K, V>, now: Time, k: K)
    ensures Get(Expire(d, now), k) == if k in d.container && d.container[k].expiry > now then Get(d, k) else None
  {
  }

  /** `Expire` only removes: what it keeps is unchanged. */
  lemma ExpireOnlyRemoves<K, V>(d: Dict<K, V>, now: Time)
    ensures SubDict(Expire(d, now).container, d.container)
    ensures |Expire(d, now).container| <= |d.container|
  {
    var r := Expire(d, now);
    assert r.container.Keys <= d.container.Keys;
    SubsetCardinality(r.container.Keys, d.container.Keys);
  }

  /** A subset is no larger than its superset. */
  lemma {:induction false} SubsetCardinality<K>(a: set<K>, b: set<K>)
    requires a <= b
    ensures |a| <= |b|
  {
    if a != {} {
      var x :| x in a;
      SubsetCardinality(a - {x}, b - {x});
    }
  }

  /** Two expiry passes amount to one at the later of the two time points. */
  lemma ExpireTwice<K, V>(d: Dict<K, V>, t1: Time, t2: Time)
    ensures Expire(Expire(d, t1), t2) == Expire(d, if t1 < t2 then t2 else t1)
  {
  }

  /** Expiring twice at the same time point is the same as expiring once. */
  lemma ExpireIdempotent<K, V>(d: Dict<K, V>, now: Time)
    ensures Expire(Expire(d, now), now) == Expire(d, now)
  {
    ExpireTwice(d, now, now);
  }

  /** Expiring a freshly created dictionary leaves it empty. */
  lemma ExpireNew<K, V>(ttl: Duration, now: Time)
    ensures Expire(New<K, V>(ttl), now) == New<K, V>(ttl)
  {
  }

  /** Expiring a dictionary with nothing in it leaves it unchanged. */
  lemma ExpireEmpty<K, V>(d: Dict<K, V>, now: Time)
    requires |d.container| == 0
    ensures Expire(d, now) == d
  {
  }

  /**
   An entry inserted at `t` with time-to-live `ttl` survives an `Expire` at
   `now` exactly when `now` is strictly before `t + ttl`.
   */
  lemma InsertThenExpire<K, V>(d: Dict<K, V>, k: K, v: V, ttl: Duration, t: Time, now: Time)
    ensures var r := Expire(InsertWithTtl(d, k, v, ttl, t).dict, now);
            (k in r.container <==> now < t + ttl)
            && (now < t + ttl ==> Get(r, k) == Some(v))
            && (now >= t + ttl ==> Get(r, k) == None)
  {
  }

  /**
   Inserting and then expiring equals expiring and then inserting, when the
   new entry is live; when it is not, the insertion leaves no trace of the key.
   */
  lemma ExpireAfterInsert<K, V>(d: Dict<K, V>, k: K, v: V, ttl: Duration, t: Time, now: Time)
    ensures t + ttl > now ==>
              Expire(InsertWithTtl(d, k, v, ttl, t).dict, now) == InsertWithTtl(Expire(d, now), k, v, ttl, t).dict
    ensures t + ttl <= now ==>
              Expire(InsertWithTtl(d, k, v, ttl, t).dict, now).container == Expire(d, now).container - {k}
  {
  }
}
