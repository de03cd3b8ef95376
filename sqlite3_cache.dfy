/** The current engine (`sqlite3_cache.Cache`): the `cache` table held in
    place, one method per public operation. The clock is the explicit `now`
    argument, in whole seconds. Stored expiry `-1` means "never expires". */
module Sqlite3Cache {
  import opened SqlLike
  import opened KeyOrder
  import opened Store

  class Cache {
    /** The rows of the `cache` table. */
    var store: Table

    /** Opening a cache creates the table only if it does not exist yet, so
        rows already in a shared database survive. */
    constructor (existing: Table)
      ensures store == existing
    {
      store := existing;
    }

    /** `key in cache`: a liveness query that deletes nothing. */
    method Contains(key: Key, now: nat) returns (b: bool)
      ensures b <==> IsLive(Sentinel, store, key, now)
    {
      b := key in store && (store[key].exp == NoExpiry || store[key].exp > now);
    }

    /** `cache[key]`: `get` with default `None`; a `None` result, whether
        missing or stored, is a `KeyError`. */
    method GetItem(key: Key, now: nat) returns (r: Result<Value>)
      modifies this
      ensures store == Evict(Sentinel, old(store), key, now)
      ensures r.Err? <==> Lookup(Sentinel, old(store), key, now).GetOr(NoneValue) == NoneValue
      ensures r.Err? ==> r.error == KeyNotInCache
      ensures r.Ok? ==> Lookup(Sentinel, old(store), key, now) == Some(r.value)
    {
      var value := Get(key, now);
      if value == NoneValue {
        return Err(KeyNotInCache);
      }
      return Ok(value);
    }

    /** Conditional upsert: writes only over an absent or dead row. */
    method Add(key: Key, value: Value, now: nat, timeout: int := DefaultTimeout)
      modifies this
      ensures store == AddEntry(Sentinel, old(store), key, Entry(value, ExpTimestamp(Sentinel, timeout, now)), now)
    {
      var exp := ExpTimestamp(Sentinel, timeout, now);
      if key !in store || (store[key].exp != NoExpiry && store[key].exp <= now) {
        store := store[key := Entry(value, exp)];
      }
    }

    /** The live value, or `default`; a dead row is deleted on the way. */
    method Get(key: Key, now: nat, default: Value := NoneValue) returns (r: Value)
      modifies this
      ensures r == Lookup(Sentinel, old(store), key, now).GetOr(default)
      ensures store == Evict(Sentinel, old(store), key, now)
    {
      if key !in store {
        return default;
      }
      var exp := ExpDatetime(store[key].exp);
      if exp.Some? && now >= exp.value {
        store := store - {key};
        return default;
      }
      return store[key].value;
    }

    /** Unconditional upsert. */
    method Set(key: Key, value: Value, now: nat, timeout: int := DefaultTimeout)
      modifies this
      ensures store == old(store)[key := Entry(value, ExpTimestamp(Sentinel, timeout, now))]
    {
      store := store[key := Entry(value, ExpTimestamp(Sentinel, timeout, now))];
    }

    /** Replaces the value of a live row only. */
    method Update(key: Key, value: Value, now: nat)
      modifies this
      ensures store == UpdateValue(Sentinel, old(store), key, value, now)
    {
      if key in store && (store[key].exp == NoExpiry || store[key].exp > now) {
        store := store[key := store[key].(value := value)];
      }
    }

    /** Replaces the expiry of a live row only. */
    method Touch(key: Key, now: nat, timeout: int := DefaultTimeout)
      modifies this
      ensures store == TouchExpiry(Sentinel, old(store), key, ExpTimestamp(Sentinel, timeout, now), now)
    {
      var exp := ExpTimestamp(Sentinel, timeout, now);
      if key in store && (store[key].exp == NoExpiry || store[key].exp > now) {
        store := store[key := store[key].(exp := exp)];
      }
    }

    method Delete(key: Key)
      modifies this
      ensures store == old(store) - {key}
    {
      store := store - {key};
    }

    /** One multi-row conditional upsert; its rows apply one after another,
        all with the same expiry. An empty dict leaves `VALUES` without a row,
        which SQLite rejects. */
    method AddMany(items: map<Key, Value>, now: nat, timeout: int := DefaultTimeout) returns (r: Outcome)
      modifies this
      ensures items == map[] ==> r == Fail(SqlSyntaxError) && store == old(store)
      ensures items != map[] ==> r == Pass && store == AddAll(Sentinel, old(store), items, ExpTimestamp(Sentinel, timeout, now), now)
    {
      if items == map[] {
        return Fail(SqlSyntaxError);
      }
      var exp := ExpTimestamp(Sentinel, timeout, now);
      var pending := items.Keys;
      assert items - pending == map[];
      assert AddAll(Sentinel, old(store), map[], exp, now) == old(store);
      while pending != {}
        invariant pending <= items.Keys
        invariant store == AddAll(Sentinel, old(store), items - pending, exp, now)
        decreases pending
      {
        var key :| key in pending;
        AddAllStep(Sentinel, old(store), items - pending, key, items[key], exp, now);
        assert (items - pending)[key := items[key]] == items - (pending - {key});
        store := AddEntry(Sentinel, store, key, Entry(items[key], exp), now);
        pending := pending - {key};
      }
      assert items - pending == items;
      return Pass;
    }

    /** The requested live values; the requested dead rows are deleted in
        one batch. */
    method GetMany(keys: seq<Key>, now: nat) returns (results: map<Key, Value>)
      modifies this
      ensures forall k :: k in results <==> k in keys && IsLive(Sentinel, old(store), k, now)
      ensures forall k :: k in results ==> Some(results[k]) == Lookup(Sentinel, old(store), k, now)
      ensures store == PurgeDead(Sentinel, old(store), (set k | k in keys), now)
    {
      var fetched := RowsFor(store, keys);
      if fetched == [] {
        assert PurgeDead(Sentinel, store, (set k | k in keys), now) == store;
        return map[];
      }
      results := map[];
      var toDelete: seq<Key> := [];
      var i := 0;
      while i < |fetched|
        invariant 0 <= i <= |fetched|
        invariant store == old(store)
        invariant forall k :: k in results ==> k in keys && IsLive(Sentinel, store, k, now) && results[k] == store[k].value
        invariant forall j :: 0 <= j < i && Live(Sentinel, fetched[j].1.exp, now) ==> fetched[j].0 in results
        invariant forall k :: k in toDelete ==> k in keys && k in store && !Live(Sentinel, store[k].exp, now)
        invariant forall j :: 0 <= j < i && !Live(Sentinel, fetched[j].1.exp, now) ==> fetched[j].0 in toDelete
      {
        var (key, entry) := fetched[i];
        var exp := ExpDatetime(entry.exp);
        if exp.Some? && now >= exp.value {
          toDelete := toDelete + [key];
        } else {
          results := results[key := entry.value];
        }
        i := i + 1;
      }
      ghost var dead := set k | k in toDelete;
      assert forall k :: k in keys && k in store ==> (k, store[k]) in fetched;
      DeleteDead(Sentinel, store, (set k | k in keys), dead, now);
      if toDelete != [] {
        store := store - (set k | k in toDelete);
      } else {
        assert dead == {};
      }
    }

    /** One multi-row unconditional upsert, all rows with the same expiry; an
        empty dict is rejected as for `AddMany`. */
    method SetMany(items: map<Key, Value>, now: nat, timeout: int := DefaultTimeout) returns (r: Outcome)
      modifies this
      ensures items == map[] ==> r == Fail(SqlSyntaxError) && store == old(store)
      ensures items != map[] ==> r == Pass && store == SetAll(old(store), items, ExpTimestamp(Sentinel, timeout, now))
    {
      if items == map[] {
        return Fail(SqlSyntaxError);
      }
      var exp := ExpTimestamp(Sentinel, timeout, now);
      var pending := items.Keys;
      assert items - pending == map[];
      assert SetAll(old(store), map[], exp) == old(store);
      while pending != {}
        invariant pending <= items.Keys
        invariant store == SetAll(old(store), items - pending, exp)
        decreases pending
      {
        var key :| key in pending;
        SetAllStep(old(store), items - pending, key, items[key], exp);
        assert (items - pending)[key := items[key]] == items - (pending - {key});
        store := store[key := Entry(items[key], exp)];
        pending := pending - {key};
      }
      assert items - pending == items;
      return Pass;
    }

    /** `update` once per item. */
    method UpdateMany(items: map<Key, Value>, now: nat)
      modifies this
      ensures store == UpdateAll(Sentinel, old(store), items, now)
    {
      var pending := items.Keys;
      assert items - pending == map[];
      assert UpdateAll(Sentinel, old(store), map[], now) == old(store);
      while pending != {}
        invariant pending <= items.Keys
        invariant store == UpdateAll(Sentinel, old(store), items - pending, now)
        decreases pending
      {
        var key :| key in pending;
        UpdateAllStep(Sentinel, old(store), items - pending, key, items[key], now);
        assert (items - pending)[key := items[key]] == items - (pending - {key});
        Update(key, items[key], now);
        pending := pending - {key};
      }
      assert items - pending == items;
    }

    /** `touch` once per key, all to the same expiry. */
    method TouchMany(keys: seq<Key>, now: nat, timeout: int := DefaultTimeout)
      modifies this
      ensures store == TouchAll(Sentinel, old(store), (set k | k in keys), ExpTimestamp(Sentinel, timeout, now), now)
    {
      var exp := ExpTimestamp(Sentinel, timeout, now);
      ghost var touched: set<Key> := {};
      var i := 0;
      while i < |keys|
        invariant 0 <= i <= |keys|
        invariant touched == set k | k in keys[..i]
        invariant store == TouchAll(Sentinel, old(store), touched, exp, now)
      {
        TouchAllStep(Sentinel, old(store), touched, keys[i], exp, now);
        assert keys[..i + 1] == keys[..i] + [keys[i]];
        if keys[i] in store && (store[keys[i]].exp == NoExpiry || store[keys[i]].exp > now) {
          store := store[keys[i] := store[keys[i]].(exp := exp)];
        }
        touched := touched + {keys[i]};
        i := i + 1;
      }
      assert keys[..i] == keys;
    }

    method DeleteMany(keys: seq<Key>)
      modifies this
      ensures store == old(store) - (set k | k in keys)
    {
      store := store - (set k | k in keys);
    }

    /** The live value if there is one; otherwise any dead row is replaced by
        `default`, which is returned. */
    method GetOrSet(key: Key, default: Value, now: nat, timeout: int := DefaultTimeout) returns (r: Value)
      modifies this
      ensures IsLive(Sentinel, old(store), key, now) ==> r == old(store)[key].value && store == old(store)
      ensures !IsLive(Sentinel, old(store), key, now) ==>
        r == default && store == old(store)[key := Entry(default, ExpTimestamp(Sentinel, timeout, now))]
    {
      if key in store {
        var exp := ExpDatetime(store[key].exp);
        if exp.Some? && now >= exp.value {
          store := store - {key};
        } else {
          return store[key].value;
        }
      }
      store := store[key := Entry(default, ExpTimestamp(Sentinel, timeout, now))];
      return default;
    }

    method Clear()
      modifies this
      ensures store == map[]
    {
      store := map[];
    }

    /** Reads the live value, checks that it is an `int`, writes back
        `value + delta` with the expiry kept, and returns it. */
    method Incr(key: Key, now: nat, delta: int := 1) returns (r: Result<int>)
      modifies this
      ensures r == Increment(Sentinel, old(store), key, delta, now)
      ensures store == if r.Ok? then UpdateValue(Sentinel, old(store), key, IntValue(r.value), now) else old(store)
    {
      if !(key in store && (store[key].exp == NoExpiry || store[key].exp > now)) {
        return Err(NonexistentOrExpired);
      }
      var value := store[key].value;
      if !IsInt(value) {
        return Err(NotANumber);
      }
      var newValue := AsInt(value) + delta;
      Update(key, IntValue(newValue), now);
      return Ok(newValue);
    }

    /** As `Incr`, writing `value - delta`. */
    method Decr(key: Key, now: nat, delta: int := 1) returns (r: Result<int>)
      modifies this
      ensures r == Increment(Sentinel, old(store), key, -delta, now)
      ensures store == if r.Ok? then UpdateValue(Sentinel, old(store), key, IntValue(r.value), now) else old(store)
    {
      if !(key in store && (store[key].exp == NoExpiry || store[key].exp > now)) {
        return Err(NonexistentOrExpired);
      }
      var value := store[key].value;
      if !IsInt(value) {
        return Err(NotANumber);
      }
      var newValue := AsInt(value) - delta;
      Update(key, IntValue(newValue), now);
      return Ok(newValue);
    }

    /** Seconds left: -2 when absent or dead (a dead row is deleted), -1 when
        never expiring. */
    method Ttl(key: Key, now: nat) returns (r: int)
      modifies this
      ensures r == Remaining(old(store), key, now)
      ensures store == Evict(Sentinel, old(store), key, now)
    {
      if key !in store {
        return -2;
      }
      var exp := ExpDatetime(store[key].exp);
      if exp.None? {
        return -1;
      }
      var ttl := exp.value - now;
      if ttl <= 0 {
        store := store - {key};
        return -2;
      }
      return ttl;
    }

    /** `ttl` for every requested key, in one fetch and one batched delete. */
    method TtlMany(keys: seq<Key>, now: nat) returns (results: map<Key, int>)
      modifies this
      ensures forall k :: k in results <==> k in keys
      ensures forall k :: k in results ==> results[k] == Remaining(old(store), k, now)
      ensures store == PurgeDead(Sentinel, old(store), (set k | k in keys), now)
    {
      var fetched := RowsFor(store, keys);
      var expByKey := IndexExpByKey(fetched, store, keys);
      results := map[];
      var toDelete: seq<Key> := [];
      var i := 0;
      while i < |keys|
        invariant 0 <= i <= |keys|
        invariant store == old(store)
        invariant forall k :: k in results <==> k in keys[..i]
        invariant forall k :: k in results ==> results[k] == Remaining(store, k, now)
        invariant forall k :: k in toDelete <==> k in keys[..i] && k in store && !Live(Sentinel, store[k].exp, now)
      {
        var key := keys[i];
        assert keys[..i + 1] == keys[..i] + [key];
        assert forall k :: k in keys[..i + 1] <==> k in keys[..i] || k == key;
        var ttl: int;
        if key !in expByKey {
          assert key !in store;
          ttl := -2;
        } else {
          assert key in store && expByKey[key] == store[key].exp;
          var exp := ExpDatetime(expByKey[key]);
          if exp.None? {
            ttl := -1;
          } else if now >= exp.value {
            toDelete := toDelete + [key];
            ttl := -2;
          } else {
            ttl := exp.value - now;
          }
        }
        assert ttl == Remaining(store, key, now);
        results := results[key := ttl];
        i := i + 1;
      }
      assert keys[..i] == keys;
      ghost var dead := set k | k in toDelete;
      DeleteDead(Sentinel, store, (set k | k in keys), dead, now);
      if toDelete != [] {
        store := store - (set k | k in toDelete);
      } else {
        assert dead == {};
      }
    }

    /** Keeps the live keys of `(key, exp)` rows in their order and deletes
        the rows of the dead ones. */
    method FilterKeyResultList(unfiltered: seq<(Key, int)>, now: nat) returns (results: seq<Key>)
      modifies this
      ensures results == LiveKeysOf(Sentinel, unfiltered, now)
      ensures store == old(store) - DeadKeysOf(Sentinel, unfiltered, now)
    {
      results := [];
      var toDelete: seq<Key> := [];
      var i := 0;
      while i < |unfiltered|
        invariant 0 <= i <= |unfiltered|
        invariant store == old(store)
        invariant results == LiveKeysOf(Sentinel, unfiltered[..i], now)
        invariant forall k :: k in toDelete <==> k in DeadKeysOf(Sentinel, unfiltered[..i], now)
      {
        var (key, e) := unfiltered[i];
        assert unfiltered[..i + 1][..i] == unfiltered[..i];
        assert forall j :: 0 <= j < i ==> unfiltered[..i + 1][j] == unfiltered[..i][j];
        var exp := ExpDatetime(e);
        if exp.Some? && now >= exp.value {
          toDelete := toDelete + [key];
        } else {
          results := results + [key];
        }
        i := i + 1;
      }
      assert unfiltered[..i] == unfiltered;
      if toDelete != [] {
        store := store - (set k | k in toDelete);
      } else {
        assert DeadKeysOf(Sentinel, unfiltered, now) == {};
      }
    }

    /** The live keys in ascending order; the dead rows are deleted. */
    method GetAllKeys(now: nat) returns (keys: seq<Key>)
      modifies this
      ensures StrictlySorted(keys)
      ensures forall k :: k in keys <==> IsLive(Sentinel, old(store), k, now)
      ensures store == PurgeDead(Sentinel, old(store), old(store).Keys, now)
    {
      var ordered := SortedKeys(store.Keys);
      var fetched := KeyRows(store, ordered);
      FilterSortedRows(Sentinel, store, store.Keys, fetched, now);
      if fetched == [] {
        return [];
      }
      keys := FilterKeyResultList(fetched, now);
    }

    /** The live keys `LIKE pattern` in ascending order; the dead rows among
        the matching ones are deleted. */
    method FindMatchingKeys(pattern: string, now: nat) returns (keys: seq<Key>)
      modifies this
      ensures StrictlySorted(keys)
      ensures forall k :: k in keys <==> IsLive(Sentinel, old(store), k, now) && Like(k, pattern)
      ensures store == PurgeDead(Sentinel, old(store), MatchingKeys(old(store), pattern), now)
    {
      var ordered := SortedKeys(MatchingKeys(store, pattern));
      var fetched := KeyRows(store, ordered);
      FilterSortedRows(Sentinel, store, MatchingKeys(store, pattern), fetched, now);
      if fetched == [] {
        return [];
      }
      keys := FilterKeyResultList(fetched, now);
    }

    method FindKeysStartingWith(p: string, now: nat) returns (keys: seq<Key>)
      modifies this
      ensures StrictlySorted(keys)
      ensures forall k :: k in keys <==> IsLive(Sentinel, old(store), k, now) && PrefixMatches(k, p)
      ensures store == PurgeDead(Sentinel, old(store), MatchingKeys(old(store), p + "%"), now)
    {
      keys := FindMatchingKeys(p + "%", now);
      forall k: Key ensures Like(k, p + "%") <==> PrefixMatches(k, p) {
        StartsWithPattern(k, p);
      }
    }

    method FindKeysEndingWith(p: string, now: nat) returns (keys: seq<Key>)
      modifies this
      ensures StrictlySorted(keys)
      ensures forall k :: k in keys <==> IsLive(Sentinel, old(store), k, now) && SuffixMatches(k, p)
      ensures store == PurgeDead(Sentinel, old(store), MatchingKeys(old(store), "%" + p), now)
    {
      keys := FindMatchingKeys("%" + p, now);
      forall k: Key ensures Like(k, "%" + p) <==> SuffixMatches(k, p) {
        EndsWithPattern(k, p);
      }
    }

    method FindKeysContaining(p: string, now: nat) returns (keys: seq<Key>)
      modifies this
      ensures StrictlySorted(keys)
      ensures forall k :: k in keys <==> IsLive(Sentinel, old(store), k, now) && InfixMatches(k, p)
      ensures store == PurgeDead(Sentinel, old(store), MatchingKeys(old(store), "%" + p + "%"), now)
    {
      keys := FindMatchingKeys("%" + p + "%", now);
      forall k: Key ensures Like(k, "%" + p + "%") <==> InfixMatches(k, p) {
        ContainsPattern(k, p);
      }
    }

    /** Deletes every row whose key matches, live or dead. */
    method ClearMatchingKeys(pattern: string)
      modifies this
      ensures store == WithoutMatching(old(store), pattern)
    {
      store := map k | k in store && !Like(k, pattern) :: store[k];
    }

    method ClearKeysStartingWith(p: string)
      modifies this
      ensures forall k :: k in store <==> k in old(store) && !PrefixMatches(k, p)
      ensures forall k :: k in store ==> store[k] == old(store)[k]
    {
      ClearMatchingKeys(p + "%");
      forall k: Key ensures Like(k, p + "%") <==> PrefixMatches(k, p) {
        StartsWithPattern(k, p);
      }
    }

    method ClearKeysEndingWith(p: string)
      modifies this
      ensures forall k :: k in store <==> k in old(store) && !SuffixMatches(k, p)
      ensures forall k :: k in store ==> store[k] == old(store)[k]
    {
      ClearMatchingKeys("%" + p);
      forall k: Key ensures Like(k, "%" + p) <==> SuffixMatches(k, p) {
        EndsWithPattern(k, p);
      }
    }

    method ClearKeysContaining(p: string)
      modifies this
      ensures forall k :: k in store <==> k in old(store) && !InfixMatches(k, p)
      ensures forall k :: k in store ==> store[k] == old(store)[k]
    {
      ClearMatchingKeys("%" + p + "%");
      forall k: Key ensures Like(k, "%" + p + "%") <==> InfixMatches(k, p) {
        ContainsPattern(k, p);
      }
    }
  }
}
