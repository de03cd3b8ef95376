/** The legacy engine (`sqlite_cache.Cache`). It stores the same table, but
    every expiry is a plain timestamp: there is no "never expires" value, so a
    negative timeout writes a row that is already dead. Liveness is
    `exp > now` on both the SQL and the Python side. */
module SqliteCache {
  import opened Store

  class Cache {
    /** The rows of the `cache` table. */
    var store: Table

    /** Opening a cache creates the table only if it does not exist yet. */
    constructor (existing: Table)
      ensures store == existing
    {
      store := existing;
    }

    /** `key in cache`: a liveness query that deletes nothing. */
    method Contains(key: Key, now: nat) returns (b: bool)
      ensures b <==> IsLive(NoSentinel, store, key, now)
    {
      b := key in store && store[key].exp > now;
    }

    /** `cache[key]`: `get` with default `None`; a `None` result is a
        `KeyError`. */
    method GetItem(key: Key, now: nat) returns (r: Result<Value>)
      modifies this
      ensures store == Evict(NoSentinel, old(store), key, now)
      ensures r.Err? <==> Lookup(NoSentinel, old(store), key, now).GetOr(NoneValue) == NoneValue
      ensures r.Err? ==> r.error == KeyNotInCache
      ensures r.Ok? ==> Lookup(NoSentinel, old(store), key, now) == Some(r.value)
    {
      var value := Get(key, now);
      if value == NoneValue {
        return Err(KeyNotInCache);
      }
      return Ok(value);
    }

    /** Conditional upsert: writes only over an absent or dead row. */
    method Add(key: Key, value: Value, now: nat, timeout: int := DefaultTimeout)
      modifies this
      ensures store == AddEntry(NoSentinel, old(store), key, Entry(value, ExpTimestamp(NoSentinel, timeout, now)), now)
    {
      var exp := ExpTimestamp(NoSentinel, timeout, now);
      if key !in store || store[key].exp <= now {
        store := store[key := Entry(value, exp)];
      }
    }

    /** The live value, or `default`; a dead row is deleted on the way. */
    method Get(key: Key, now: nat, default: Value := NoneValue) returns (r: Value)
      modifies this
      ensures r == Lookup(NoSentinel, old(store), key, now).GetOr(default)
      ensures store == Evict(NoSentinel, old(store), key, now)
    {
      if key !in store {
        return default;
      }
      if now >= store[key].exp {
        store := store - {key};
        return default;
      }
      return store[key].value;
    }

    /** Unconditional upsert. */
    method Set(key: Key, value: Value, now: nat, timeout: int := DefaultTimeout)
      modifies this
      ensures store == old(store)[key := Entry(value, ExpTimestamp(NoSentinel, timeout, now))]
    {
      store := store[key := Entry(value, ExpTimestamp(NoSentinel, timeout, now))];
    }

    /** Replaces the value of a live row only. */
    method Update(key: Key, value: Value, now: nat)
      modifies this
      ensures store == UpdateValue(NoSentinel, old(store), key, value, now)
    {
      if key in store && store[key].exp > now {
        store := store[key := store[key].(value := value)];
      }
    }

    /** Replaces the expiry of a live row only. */
    method Touch(key: Key, now: nat, timeout: int := DefaultTimeout)
      modifies this
      ensures store == TouchExpiry(NoSentinel, old(store), key, ExpTimestamp(NoSentinel, timeout, now), now)
    {
      var exp := ExpTimestamp(NoSentinel, timeout, now);
      if key in store && store[key].exp > now {
        store := store[key := store[key].(exp := exp)];
      }
    }

    method Delete(key: Key)
      modifies this
      ensures store == old(store) - {key}
    {
      store := store - {key};
    }

    /** One multi-row conditional upsert, all rows with the same expiry; an
        empty dict leaves `VALUES` without a row, which SQLite rejects. */
    method AddMany(items: map<Key, Value>, now: nat, timeout: int := DefaultTimeout) returns (r: Outcome)
      modifies this
      ensures items == map[] ==> r == Fail(SqlSyntaxError) && store == old(store)
      ensures items != map[] ==> r == Pass && store == AddAll(NoSentinel, old(store), items, ExpTimestamp(NoSentinel, timeout, now), now)
    {
      if items == map[] {
        return Fail(SqlSyntaxError);
      }
      var exp := ExpTimestamp(NoSentinel, timeout, now);
      var pending := items.Keys;
      assert items - pending == map[];
      assert AddAll(NoSentinel, old(store), map[], exp, now) == old(store);
      while pending != {}
        invariant pending <= items.Keys
        invariant store == AddAll(NoSentinel, old(store), items - pending, exp, now)
        decreases pending
      {
        var key :| key in pending;
        AddAllStep(NoSentinel, old(store), items - pending, key, items[key], exp, now);
        assert (items - pending)[key := items[key]] == items - (pending - {key});
        store := AddEntry(NoSentinel, store, key, Entry(items[key], exp), now);
        pending := pending - {key};
      }
      assert items - pending == items;
      return Pass;
    }

    /** The requested live values; the requested dead rows are deleted in
        one batch. */
    method GetMany(keys: seq<Key>, now: nat) returns (results: map<Key, Value>)
      modifies this
      ensures forall k :: k in results <==> k in keys && IsLive(NoSentinel, old(store), k, now)
      ensures forall k :: k in results ==> Some(results[k]) == Lookup(NoSentinel, old(store), k, now)
      ensures store == PurgeDead(NoSentinel, old(store), (set k | k in keys), now)
    {
      var fetched := RowsFor(store, keys);
      if fetched == [] {
        assert PurgeDead(NoSentinel, store, (set k | k in keys), now) == store;
        return map[];
      }
      results := map[];
      var toDelete: seq<Key> := [];
      var i := 0;
      while i < |fetched|
        invariant 0 <= i <= |fetched|
        invariant store == old(store)
        invariant forall k :: k in results ==> k in keys && IsLive(NoSentinel, store, k, now) && results[k] == store[k].value
        invariant forall j :: 0 <= j < i && Live(NoSentinel, fetched[j].1.exp, now) ==> fetched[j].0 in results
        invariant forall k :: k in toDelete ==> k in keys && k in store && !Live(NoSentinel, store[k].exp, now)
        invariant forall j :: 0 <= j < i && !Live(NoSentinel, fetched[j].1.exp, now) ==> fetched[j].0 in toDelete
      {
        var (key, entry) := fetched[i];
        if now >= entry.exp {
          toDelete := toDelete + [key];
        } else {
          results := results[key := entry.value];
        }
        i := i + 1;
      }
      ghost var dead := set k | k in toDelete;
      assert forall k :: k in keys && k in store ==> (k, store[k]) in fetched;
      DeleteDead(NoSentinel, store, (set k | k in keys), dead, now);
      if toDelete != [] {
        store := store - (set k | k in toDelete);
      } else {
        assert dead == {};
      }
    }

    /** One multi-row unconditional upsert, all rows with the same expiry; an
        empty dict is rejected as for `AddMany`. */
    method SetMany(items: map<Key, Value>, now: nat, timeout: int := DefaultTimeout) returns (r: Outcome)
      modifies this
      ensures items == map[] ==> r == Fail(SqlSyntaxError) && store == old(store)
      ensures items != map[] ==> r == Pass && store == SetAll(old(store), items, ExpTimestamp(NoSentinel, timeout, now))
    {
      if items == map[] {
        return Fail(SqlSyntaxError);
      }
      var exp := ExpTimestamp(NoSentinel, timeout, now);
      var pending := items.Keys;
      assert items - pending == map[];
      assert SetAll(old(store), map[], exp) == old(store);
      while pending != {}
        invariant pending <= items.Keys
        invariant store == SetAll(old(store), items - pending, exp)
        decreases pending
      {
        var key :| key in pending;
        SetAllStep(old(store), items - pending, key, items[key], exp);
        assert (items - pending)[key := items[key]] == items - (pending - {key});
        store := store[key := Entry(items[key], exp)];
        pending := pending - {key};
      }
      assert items - pending == items;
      return Pass;
    }

    /** `update` once per item. */
    method UpdateMany(items: map<Key, Value>, now: nat)
      modifies this
      ensures store == UpdateAll(NoSentinel, old(store), items, now)
    {
      var pending := items.Keys;
      assert items - pending == map[];
      assert UpdateAll(NoSentinel, old(store), map[], now) == old(store);
      while pending != {}
        invariant pending <= items.Keys
        invariant store == UpdateAll(NoSentinel, old(store), items - pending, now)
        decreases pending
      {
        var key :| key in pending;
        UpdateAllStep(NoSentinel, old(store), items - pending, key, items[key], now);
        assert (items - pending)[key := items[key]] == items - (pending - {key});
        Update(key, items[key], now);
        pending := pending - {key};
      }
      assert items - pending == items;
    }

    /** `touch` once per key, all to the same expiry. */
    method TouchMany(keys: seq<Key>, now: nat, timeout: int := DefaultTimeout)
      modifies this
      ensures store == TouchAll(NoSentinel, old(store), (set k | k in keys), ExpTimestamp(NoSentinel, timeout, now), now)
    {
      var exp := ExpTimestamp(NoSentinel, timeout, now);
      ghost var touched: set<Key> := {};
      var i := 0;
      while i < |keys|
        invariant 0 <= i <= |keys|
        invariant touched == set k | k in keys[..i]
        invariant store == TouchAll(NoSentinel, old(store), touched, exp, now)
      {
        TouchAllStep(NoSentinel, old(store), touched, keys[i], exp, now);
        assert keys[..i + 1] == keys[..i] + [keys[i]];
        if keys[i] in store && store[keys[i]].exp > now {
          store := store[keys[i] := store[keys[i]].(exp := exp)];
        }
        touched := touched + {keys[i]};
        i := i + 1;
      }
      assert keys[..i] == keys;
    }

    method DeleteMany(keys: seq<Key>)
      modifies this
      ensures store == old(store) - (set k | k in keys)
    {
      store := store - (set k | k in keys);
    }

    /** The live value if there is one; otherwise any dead row is replaced by
        `default`, which is returned. */
    method GetOrSet(key: Key, default: Value, now: nat, timeout: int := DefaultTimeout) returns (r: Value)
      modifies this
      ensures IsLive(NoSentinel, old(store), key, now) ==> r == old(store)[key].value && store == old(store)
      ensures !IsLive(NoSentinel, old(store), key, now) ==>
        r == default && store == old(store)[key := Entry(default, ExpTimestamp(NoSentinel, timeout, now))]
    {
      if key in store {
        if now >= store[key].exp {
          store := store - {key};
        } else {
          return store[key].value;
        }
      }
      store := store[key := Entry(default, ExpTimestamp(NoSentinel, timeout, now))];
      return default;
    }

    method Clear()
      modifies this
      ensures store == map[]
    {
      store := map[];
    }

    /** Checks that the live value is an `int` and writes back
        `value + delta` with the expiry kept; returns nothing on success. */
    method Incr(key: Key, now: nat, delta: int := 1) returns (r: Outcome)
      modifies this
      ensures r.Pass? <==> Increment(NoSentinel, old(store), key, delta, now).Ok?
      ensures r.Fail? ==> r.error == Increment(NoSentinel, old(store), key, delta, now).error
      ensures store == if r.Pass?
        then UpdateValue(NoSentinel, old(store), key, IntValue(Increment(NoSentinel, old(store), key, delta, now).value), now)
        else old(store)
    {
      if !(key in store && store[key].exp > now) {
        return Fail(NonexistentOrExpired);
      }
      var value := store[key].value;
      if !IsInt(value) {
        return Fail(NotANumber);
      }
      Update(key, IntValue(AsInt(value) + delta), now);
      return Pass;
    }

    /** As `Incr`, writing `value - delta`. */
    method Decr(key: Key, now: nat, delta: int := 1) returns (r: Outcome)
      modifies this
      ensures r.Pass? <==> Increment(NoSentinel, old(store), key, -delta, now).Ok?
      ensures r.Fail? ==> r.error == Increment(NoSentinel, old(store), key, -delta, now).error
      ensures store == if r.Pass?
        then UpdateValue(NoSentinel, old(store), key, IntValue(Increment(NoSentinel, old(store), key, -delta, now).value), now)
        else old(store)
    {
      if !(key in store && store[key].exp > now) {
        return Fail(NonexistentOrExpired);
      }
      var value := store[key].value;
      if !IsInt(value) {
        return Fail(NotANumber);
      }
      Update(key, IntValue(AsInt(value) - delta), now);
      return Pass;
    }
  }
}
