# ExpiringDict — a Dafny model

This project models `ExpiringDict<K, V, T>` from the Rust crate `expiringdict`:
a hash map from keys to `(value, expiry)` pairs with a default time-to-live.
Callers insert with the default or with their own time-to-live, read values
without any expiry check, and call `expire()` themselves to drop every entry
whose expiry is not strictly later than the current time.

The model is functional. `ExpiringDict.Dict` holds `defaultTtl: nat` and
`container: map<K, Entry<V>>`, where an `Entry` is a value and its expiry.
The operations are pure functions. The Rust methods mutate the map and return
`Option<V>`, so `Insert` and `InsertWithTtl` return both the new dictionary and
the displaced value. The clock `T::now()` becomes an explicit `now: int`
parameter of `Insert`, `InsertWithTtl` and `Expire`. Durations are `nat`.
Nothing is assumed about the order of successive `now` values.

Files:

- `wrappers.dfy`: the `Option` type.
- `expiring_dict.dfy`: the data model and the five operations. It also has
  `ExpireSweep`, a key-by-key scan that models `HashMap::retain`, proved to
  compute the same result as `Expire`.
- `properties.dfy`: lemmas that relate the operations to each other.
- `history.dfy`: arbitrary call sequences on one dictionary. It characterises
  exactly which entries a dictionary built by `New` holds after any such sequence.
- `scenarios.dfy`: the crate's unit tests, plus the strict retention boundary. Each sleep becomes a lower bound on
  the gap between two time points.

The crate has no removal method, so only an overwrite or `Expire` drops an
entry (`History.NoExpireNoRemoval`).

## Model

| member | source | states |
|---|---|---|
| ExpiringDict.New | src/lib.rs:25-30 | the new dictionary has no entries and keeps the given default time-to-live |
| ExpiringDict.Get | src/lib.rs:36-41 | the result is `None` exactly when the key is absent; otherwise it is the stored value, whatever the entry's expiry |
| ExpiringDict.InsertWithTtl | src/lib.rs:47-49 | the key now maps to the new value with expiry `now + ttl`, and no other key's entry changes. The default time-to-live is untouched. The result is `None` if the key was absent, else the displaced value. The entry is live at `now` only if `ttl > 0` |
| ExpiringDict.Insert | src/lib.rs:43-45 | the same as `InsertWithTtl`, with expiry `now + defaultTtl` |
| ExpiringDict.Expire | src/lib.rs:54-57 | a key is kept if and only if its expiry is strictly greater than `now`. Kept entries are unchanged, every entry with expiry `<= now` reads as `None`, and the default time-to-live is untouched |
| ExpiringDict.ExpireSweep | src/lib.rs:54-57 | scanning the keys one at a time and retaining only the live entries computes exactly `Expire` |
| Properties.InsertFreshThenGet | src/lib.rs:43-45 | inserting an absent key returns `None`, and reading the key back gives the inserted value |
| Properties.GetAfterInsertWithTtl | src/lib.rs:40-48 | after an insertion, the inserted key reads back the new value and every other key reads back what it read before |
| Properties.OverwriteReturnsPrevious | src/lib.rs:47-48 | a second insertion under the same key returns the first value. It replaces the first insertion's value and expiry with its own |
| Properties.InsertUsesDefaultTtl | src/lib.rs:43-49 | `Insert` and `InsertWithTtl` displace the same value, give the same key set, store `v` under the key and leave every other entry alike. Their expiries differ by exactly `defaultTtl - ttl` |
| Properties.StaleUntilExpired | src/lib.rs:32-41 | an entry whose expiry has passed still reads back its value, until an `Expire` at that time removes it |
| Properties.GetAfterExpire | src/lib.rs:54-57 | after `Expire(now)`, a key reads its old value if its entry was live (expiry `> now`), and `None` otherwise |
| Properties.ExpireOnlyRemoves | src/lib.rs:56 | the expired dictionary is a sub-map of the original and is no larger |
| Properties.ExpireTwice | src/lib.rs:54-57 | expiring at `t1` and then at `t2` equals one expiry at the later of the two, whatever their order |
| Properties.ExpireIdempotent | src/lib.rs:54-57 | expiring twice at the same time equals expiring once |
| Properties.ExpireNew | src/lib.rs:25-30 | expiring a freshly created dictionary leaves it as created |
| Properties.ExpireEmpty | src/lib.rs:54-57 | expiring a dictionary with no entries leaves it unchanged |
| Properties.InsertThenExpire | src/lib.rs:47-57 | an entry inserted at `t` with time-to-live `ttl` survives `Expire(now)` if and only if `now < t + ttl`. It reads back its value if it survives and `None` if not |
| Properties.ExpireAfterInsert | src/lib.rs:47-57 | when the new entry is live, insert-then-expire equals expire-then-insert. Otherwise insert-then-expire equals expire-then-remove-the-key |
| History.RunKeepsDefaultTtl | src/lib.rs:17-57 | no sequence of calls changes the default time-to-live |
| History.NoExpireNoRemoval | src/lib.rs:43-49 | a sequence of calls without `expire` never removes a key |
| History.RunFromNew | src/lib.rs:25-57 | after any sequence of calls on `new(ttl)`, a key is present if and only if some call inserted it and no later `expire` sampled a time at or after that entry's expiry. A present key holds the value and expiry that the last inserting call stored |
| Scenarios.ExpiresAfterDefaultTtl | src/tests.rs:5-14 | with default time-to-live 10, inserting "a" returns `None` and reads back 1. An `expire` 20 or more later makes it read `None` |
| Scenarios.DefaultAndCustomTtl | src/tests.rs:16-30 | "a" with the default time-to-live 10 and "b" with 30 coexist. An `expire` in `[ta+20, tb+30)` drops "a" and keeps "b", and an `expire` at or after `tb+30` drops "b" |
| Scenarios.BoundaryIsExpired | src/lib.rs:56 | an `expire` one unit before an entry's expiry keeps it, and an `expire` exactly at its expiry removes it |

## Left out

- The `TimeNow` trait and its `SystemTime` and `Instant` implementations (src/lib.rs:61-75) read the operating system's clocks. Every clock reading is a `now` parameter instead.
- The `Instant` instantiation and its test (src/tests.rs:32-41) repeat the first scenario in another time domain. The model has one integer time domain, so the claim that wall-clock and monotonic dictionaries behave alike is not stated separately.
- The model does not cover overflow or panics in `SystemTime + Duration` and `Instant + Duration`. Time points are unbounded integers and durations are naturals.
- Lookup through `Borrow<Q>` (src/lib.rs:36-38) is modelled as lookup with the stored key type.
- Hashing and `HashMap` iteration order are not modelled. The container is a Dafny `map`, so the order in which `retain` visits entries cannot be observed.
- `get` returns a reference in Rust; the model returns the value. Values are treated as immutable, so a change made through interior mutability of the returned `&V` is not modelled.
- Scenarios.DefaultAndCustomTtl: the test relies on the first `expire` running less than 30 after "b" was inserted, which its sleeps do not guarantee. The lemma makes that an explicit precondition.
