/** `TTLCache` (webcam_import_app/bl/cache_layer.py): a map from keys to sets of
    timestamped values whose entries expire lazily, on reads, once they are older
    than the time-to-live.

    A key's set of `CacheEntry`s compares and hashes entries by value only, so it
    holds at most one entry per value: it is modelled as a map from value to
    timestamp. `time()` becomes an explicit `now`, read once per operation. The
    backing `defaultdict(set)` is a plain map; the places where the code touches
    a missing key (and so creates it) do so explicitly. */
module TtlCache {

  /** A key's entries: each stored value with the time it was (last) added. */
  type Entries<V> = map<V, real>

  datatype Cache<K, V> = Cache(ttl: real, store: map<K, Entries<V>>)

  /** `TTLCache(ttl_sec=5)`. */
  function NewCache<K(!new), V(!new)>(ttl: real): (r: Cache<K, V>)
    ensures r.ttl == ttl && |r.store| == 0
  {
    Cache(ttl, map[])
  }

  /** An entry is stale only when strictly more than `ttl` has passed since it was stamped. */
  predicate Expired(timestamp: real, now: real, ttl: real) {
    now - timestamp > ttl
  }

  /** The entries of a set that are not stale at `now`. */
  function Live<V(!new)>(entries: Entries<V>, now: real, ttl: real): (r: Entries<V>)
    ensures forall v :: v in r <==> v in entries && !Expired(entries[v], now, ttl)
    ensures forall v :: v in r ==> r[v] == entries[v]
  {
    map v | v in entries && !Expired(entries[v], now, ttl) :: entries[v]
  }

  /** The key's entries as the `defaultdict` hands them out: empty when missing. */
  function EntriesOf<K(!new), V(!new)>(c: Cache<K, V>, key: K): Entries<V> {
    if key in c.store then c.store[key] else map[]
  }

  /** `cache[key]`: drops the key's stale entries, keeps the key (creating an
      empty set for a missing one), and returns the values still live. */
  function Get<K(!new), V(!new)>(c: Cache<K, V>, key: K, now: real): (r: (Cache<K, V>, set<V>))
    ensures r.0.ttl == c.ttl
    ensures key in r.0.store
    ensures r.1 == r.0.store[key].Keys
    ensures forall v :: v in r.1 <==> v in EntriesOf(c, key) && now - EntriesOf(c, key)[v] <= c.ttl
    ensures forall v :: v in r.1 ==> r.0.store[key][v] == EntriesOf(c, key)[v]
    ensures forall k :: k != key ==> (k in r.0.store <==> k in c.store)
    ensures forall k :: k != key && k in c.store ==> r.0.store[k] == c.store[k]
  {
    var live := Live(EntriesOf(c, key), now, c.ttl);
    (c.(store := c.store[key := live]), live.Keys)
  }

  /** `key in cache`: reads the key first, which puts it in the backing map. */
  function Contains<K(!new), V(!new)>(c: Cache<K, V>, key: K, now: real): (r: (Cache<K, V>, bool))
    ensures r.1
    ensures r.0 == Get(c, key, now).0
  {
    var read := Get(c, key, now).0;
    (read, key in read.store)
  }

  /** The inner loop of `update` for one key: each value replaces any equal entry
      by a fresh one stamped `now`. */
  function AddValues<V(!new)>(entries: Entries<V>, values: seq<V>, now: real): (r: Entries<V>)
    ensures r.Keys == entries.Keys + set v | v in values
    ensures forall v :: v in values ==> r[v] == now
    ensures forall v :: v in entries && v !in values ==> r[v] == entries[v]
    decreases |values|
  {
    if |values| == 0 then entries
    else AddValues(entries[values[0] := now], values[1..], now)
  }

  /** `update(d)`: every value listed under a key is (re)stamped `now` in that
      key's set. A key with an empty list is never touched, so it is not created. */
  function Update<K(!new), V(!new)>(c: Cache<K, V>, d: map<K, seq<V>>, now: real): (r: Cache<K, V>)
    ensures r.ttl == c.ttl
    ensures forall k :: k in r.store <==> k in c.store || (k in d && |d[k]| > 0)
    ensures forall k :: k in d && |d[k]| > 0 ==>
      r.store[k].Keys == EntriesOf(c, k).Keys + (set v | v in d[k])
    ensures forall k, v :: k in d && v in d[k] ==> r.store[k][v] == now
    ensures forall k :: k in c.store && (k !in d || |d[k]| == 0) ==> r.store[k] == c.store[k]
  {
    var keys := c.store.Keys + (set k | k in d && |d[k]| > 0);
    var store := map k | k in keys ::
      if k in d && |d[k]| > 0 then AddValues(EntriesOf(c, k), d[k], now) else c.store[k];
    Cache(c.ttl, store)
  }

  /** `cache[key] = value`: the key's whole set becomes the single fresh entry. */
  function SetItem<K(!new), V(!new)>(c: Cache<K, V>, key: K, value: V, now: real): (r: Cache<K, V>)
    ensures r.ttl == c.ttl && key in r.store
    ensures r.store[key].Keys == {value} && r.store[key][value] == now
    ensures forall k :: k != key ==> (k in r.store <==> k in c.store)
    ensures forall k :: k != key && k in c.store ==> r.store[k] == c.store[k]
  {
    c.(store := c.store[key := map[value := now]])
  }

  /** `pop(key)`: removes the key and returns every value it held, stale or not;
      a missing key gives nothing. */
  function Pop<K(!new), V(!new)>(c: Cache<K, V>, key: K): (r: (Cache<K, V>, set<V>))
    ensures r.0.ttl == c.ttl
    ensures key !in r.0.store
    ensures r.1 == EntriesOf(c, key).Keys
    ensures forall k :: k != key ==> (k in r.0.store <==> k in c.store)
    ensures forall k :: k != key && k in c.store ==> r.0.store[k] == c.store[k]
  {
    (c.(store := c.store - {key}), EntriesOf(c, key).Keys)
  }

  /** `del cache[key]`: removes the key; a missing key is ignored. */
  function Delete<K(!new), V(!new)>(c: Cache<K, V>, key: K): (r: Cache<K, V>)
    ensures r.ttl == c.ttl
    ensures key !in r.store
    ensures forall k :: k != key ==> (k in r.store <==> k in c.store)
    ensures forall k :: k != key && k in c.store ==> r.store[k] == c.store[k]
  {
    c.(store := c.store - {key})
  }

  /** `clear()`. */
  function Clear<K(!new), V(!new)>(c: Cache<K, V>): (r: Cache<K, V>)
    ensures r.ttl == c.ttl && |r.store| == 0
  {
    c.(store := map[])
  }

  /** `_validate_all_items()`: drops every stale entry of every key, then every
      key whose set is left empty. */
  function ValidateAll<K(!new), V(!new)>(c: Cache<K, V>, now: real): (r: Cache<K, V>)
    ensures r.ttl == c.ttl
    ensures forall k :: k in r.store <==> k in c.store && |Live(c.store[k], now, c.ttl)| > 0
    ensures forall k :: k in r.store ==> r.store[k] == Live(c.store[k], now, c.ttl)
  {
    var store := map k | k in c.store && |Live(c.store[k], now, c.ttl)| > 0 :: Live(c.store[k], now, c.ttl);
    c.(store := store)
  }

  /** `len(cache)`: the number of keys left after the sweep. */
  function Len<K(!new), V(!new)>(c: Cache<K, V>, now: real): (r: (Cache<K, V>, nat))
    ensures r.0 == ValidateAll(c, now)
    ensures r.1 == |set k | k in c.store && |Live(c.store[k], now, c.ttl)| > 0|
  {
    var swept := ValidateAll(c, now);
    assert swept.store.Keys == set k | k in c.store && |Live(c.store[k], now, c.ttl)| > 0;
    (swept, |swept.store|)
  }
}

/** Properties of `TTLCache` that relate several calls. */
module TtlCacheProperties {
  import opened TtlCache

  /** An entry exactly `ttl` old is still served; one any older is not. */
  lemma ExpiryBoundary<K(!new), V(!new)>(c: Cache<K, V>, key: K, value: V, t0: real)
    ensures var c1 := SetItem(c, key, value, t0);
      && value in Get(c1, key, t0 + c.ttl).1
      && (forall now :: now > t0 + c.ttl ==> Get(c1, key, now).1 == {})
  {
  }

  /** Staleness is permanent: an entry stale at one time is stale at any later time. */
  lemma ExpiredStaysExpired(timestamp: real, now: real, later: real, ttl: real)
    requires Expired(timestamp, now, ttl) && now <= later
    ensures Expired(timestamp, later, ttl)
  {
  }

  /** Reading twice at the same time returns the same values and leaves the cache as the first read left it. */
  lemma GetIdempotent<K(!new), V(!new)>(c: Cache<K, V>, key: K, now: real)
    ensures var r1 := Get(c, key, now);
      var r2 := Get(r1.0, key, now);
      r2.1 == r1.1 && r2.0 == r1.0
  {
    var r1 := Get(c, key, now);
    var r2 := Get(r1.0, key, now);
    assert r2.0.store[key] == r1.0.store[key];
    assert r2.0.store == r1.0.store;
  }

  /** `key in cache` holds for any key, even one with no live values: the read
      that precedes the test puts it in the backing map. */
  lemma ContainsAfterExpiry<K(!new), V(!new)>(c: Cache<K, V>, key: K, value: V, t0: real, now: real)
    requires now > t0 + c.ttl
    ensures var c1 := SetItem(c, key, value, t0);
      Get(c1, key, now).1 == {} && Contains(c1, key, now).1
  {
  }

  /** Re-adding a value already held refreshes its timestamp without growing the key's set. */
  lemma UpdateRefreshes<K(!new), V(!new)>(c: Cache<K, V>, key: K, value: V, now: real)
    requires key in c.store && value in c.store[key]
    ensures var r := Update(c, map[key := [value]], now);
      && r.store[key].Keys == c.store[key].Keys
      && |r.store[key]| == |c.store[key]|
      && r.store[key][value] == now
  {
    var r := Update(c, map[key := [value]], now);
    assert (set v | v in [value]) == {value};
    assert r.store[key].Keys == c.store[key].Keys;
  }

  /** A sweep does not change what a read returns. */
  lemma ValidateAllKeepsReads<K(!new), V(!new)>(c: Cache<K, V>, key: K, now: real)
    ensures Get(ValidateAll(c, now), key, now).1 == Get(c, key, now).1
  {
    var s := ValidateAll(c, now);
    forall v
      ensures v in Get(s, key, now).1 <==> v in Get(c, key, now).1
    {
      if key in c.store && v in c.store[key] && !Expired(c.store[key][v], now, c.ttl) {
        assert v in Live(c.store[key], now, c.ttl);
      }
    }
  }

  /** `len` counts exactly the keys that a read would find non-empty. */
  lemma LenCountsLiveKeys<K(!new), V(!new)>(c: Cache<K, V>, now: real)
    ensures Len(c, now).1 == |set k | k in c.store && Get(c, k, now).1 != {}|
  {
    var a := set k | k in c.store && |Live(c.store[k], now, c.ttl)| > 0;
    var b := set k | k in c.store && Get(c, k, now).1 != {};
    forall k | k in c.store
      ensures (|Live(c.store[k], now, c.ttl)| > 0) == (Get(c, k, now).1 != {})
    {
      var l := Live(c.store[k], now, c.ttl);
      assert Get(c, k, now).1 == l.Keys;
      if |l| > 0 {
        var v :| v in l;
      }
    }
    assert a == b;
  }

  /** After `pop` the key is gone, and popping again yields nothing. */
  lemma PopTwice<K(!new), V(!new)>(c: Cache<K, V>, key: K)
    ensures var r1 := Pop(c, key);
      Pop(r1.0, key).1 == {} && Pop(r1.0, key).0 == r1.0
  {
  }

  /** The five-second scenario: a value set at time 0 is served at time 5 and
      gone at time 5.5, and the key then still counts as contained. */
  lemma DefaultTtlScenario(c: Cache<string, string>)
    requires c == NewCache(5.0)
    ensures var c1 := SetItem(c, "k", "v", 0.0);
      && Get(c1, "k", 5.0).1 == {"v"}
      && Get(c1, "k", 5.5).1 == {}
      && Len(c1, 5.5).1 == 0
      && Len(c1, 5.0).1 == 1
  {
    var c1 := SetItem(c, "k", "v", 0.0);
    assert Live(c1.store["k"], 5.5, 5.0) == map[];
    assert ValidateAll(c1, 5.5).store == map[];
    assert Live(c1.store["k"], 5.0, 5.0) == c1.store["k"];
    assert ValidateAll(c1, 5.0).store.Keys == {"k"};
  }
}
