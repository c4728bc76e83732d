/**
 Histories of calls on one dictionary. A history is the sequence of calls its
 single owner makes, each clock-reading call carrying the time point it sampled;
 nothing is assumed about the order of those time points.
 */
module History {
  import opened Wrappers
  import opened ExpiringDict

  /** One call on the dictionary. */
  datatype Op<K, V> =
    | InsertOp(key: K, value: V, now: Time)
    | InsertWithTtlOp(key: K, value: V, ttl: Duration, now: Time)
    | GetOp(key: K)
    | ExpireOp(now: Time)

  /** The effect of one call on the dictionary (a `Get` has none). */
  function Step<K, V>(d: Dict<K, V>, op: Op<K, V>): Dict<K, V> {
    match op
    case InsertOp(k, v, now) => Insert(d, k, v, now).dict
    case InsertWithTtlOp(k, v, ttl, now) => InsertWithTtl(d, k, v, ttl, now).dict
    case GetOp(_) => d
    case ExpireOp(now) => Expire(d, now)
  }

  /** The dictionary after the calls `ops`, in order, starting from `d`. */
  function Run<K, V>(d: Dict<K, V>, ops: seq<Op<K, V>>): Dict<K, V>
    decreases |ops|
  {
    if |ops| == 0 then d else Step(Run(d, ops[..|ops| - 1]), ops[|ops| - 1])
  }

  /** Whether `op` stores an entry under `k`. */
  predicate Writes<K(==), V>(op: Op<K, V>, k: K) {
    (op.InsertOp? || op.InsertWithTtlOp?) && op.key == k
  }

  /** The entry an inserting call stores, given the dictionary's default time-to-live. */
  function Written<K, V>(op: Op<K, V>, defaultTtl: Duration): Entry<V>
    requires op.InsertOp? || op.InsertWithTtlOp?
  {
    match op
    case InsertOp(_, v, now) => Entry(v, now + defaultTtl)
    case InsertWithTtlOp(_, v, ttl, now) => Entry(v, now + ttl)
  }

  /** The position of the last call in `ops` that stores an entry under `k`, if any. */
  function LastWrite<K(==), V>(ops: seq<Op<K, V>>, k: K): (r: Option<nat>)
    ensures r.Some? ==> r.value < |ops| && Writes(ops[r.value], k)
    ensures r.Some? ==> forall j :: r.value < j < |ops| ==> !Writes(ops[j], k)
    ensures r.None? ==> forall j :: 0 <= j < |ops| ==> !Writes(ops[j], k)
    decreases |ops|
  {
    if |ops| == 0 then None
    else if Writes(ops[|ops| - 1], k) then Some(|ops| - 1)
    else LastWrite(ops[..|ops| - 1], k)
  }

  /** No `Expire` call after position `i` in `ops` sampled a time at or after `expiry`. */
  predicate SurvivesAfter<K, V>(ops: seq<Op<K, V>>, i: nat, expiry: Time) {
    forall j :: i < j < |ops| && ops[j].ExpireOp? ==> ops[j].now < expiry
  }

  /** Calls never change the default time-to-live. */
  lemma {:induction false} RunKeepsDefaultTtl<K, V>(d: Dict<K, V>, ops: seq<Op<K, V>>)
    ensures Run(d, ops).defaultTtl == d.defaultTtl
    decreases |ops|
  {
    if |ops| > 0 {
      RunKeepsDefaultTtl(d, ops[..|ops| - 1]);
    }
  }

  /** Without an `Expire` call, no key is ever removed. */
  lemma {:induction false} NoExpireNoRemoval<K, V>(d: Dict<K, V>, ops: seq<Op<K, V>>)
    requires forall j :: 0 <= j < |ops| ==> !ops[j].ExpireOp?
    ensures d.container.Keys <= Run(d, ops).container.Keys
    decreases |ops|
  {
    if |ops| > 0 {
      NoExpireNoRemoval(d, ops[..|ops| - 1]);
    }
  }

  /** Survival after `i` in a history extended by one call: the new call must not expire the entry. */
  lemma SurvivesAfterExtend<K, V>(ops: seq<Op<K, V>>, i: nat, expiry: Time)
    requires i < |ops| - 1
    ensures SurvivesAfter(ops, i, expiry) <==>
              SurvivesAfter(ops[..|ops| - 1], i, expiry)
              && (ops[|ops| - 1].ExpireOp? ==> ops[|ops| - 1].now < expiry)
  {
  }

  /**
   What a dictionary created by `New(ttl)` holds after the calls `ops`: a key is
   present exactly when some call stored an entry under it and no later `Expire`
   sampled a time at or after that entry's expiry, and then it holds the entry
   the last such call stored.
   */
  lemma {:induction false} RunFromNew<K, V>(ttl: Duration, ops: seq<Op<K, V>>, k: K)
    ensures var d := Run(New<K, V>(ttl), ops);
            var w := LastWrite(ops, k);
            && (k in d.container <==> w.Some? && SurvivesAfter(ops, w.value, Written(ops[w.value], ttl).expiry))
            && (k in d.container ==> w.Some? && d.container[k] == Written(ops[w.value], ttl))
    decreases |ops|
  {
    if |ops| > 0 {
      var pre := ops[..|ops| - 1];
      var op := ops[|ops| - 1];
      var before := Run(New<K, V>(ttl), pre);
      var after := Run(New<K, V>(ttl), ops);
      assert after == Step(before, op);
      RunFromNew(ttl, pre, k);
      RunKeepsDefaultTtl(New<K, V>(ttl), pre);
      var w := LastWrite(ops, k);
      if Writes(op, k) {
        assert w == Some(|ops| - 1);
        assert after.container[k] == Written(op, ttl);
      } else {
        assert w == LastWrite(pre, k);
        assert op.ExpireOp? ==> (k in after.container <==> k in before.container && before.container[k].expiry > op.now);
        assert !op.ExpireOp? ==> (k in after.container <==> k in before.container);
        assert k in after.container ==> after.container[k] == before.container[k];
        if w.Some? {
          assert ops[w.value] == pre[w.value];
          SurvivesAfterExtend(ops, w.value, Written(ops[w.value], ttl).expiry);
        }
      }
    }
  }
}
