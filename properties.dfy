/** Properties relating several operations of the two engines: what a read
    sees after a write, what the batch operations are in terms of the single
    ones, and where the two expiry rules agree and differ. */
module CacheProperties {
  import opened SqlLike
  import opened Store

  /** An entry that is dead stays dead: time only moves rows towards
      expiry. */
  lemma DeadStaysDead(rule: Rule, exp: int, now: nat, later: nat)
    requires !Live(rule, exp, now) && now <= later
    ensures !Live(rule, exp, later)
  {
  }

  /** What `get` sees at `later` after `set(key, v, timeout)` at `now`: the
      value while `later < now + timeout` (forever for a negative timeout
      under the sentinel rule), nothing afterwards. */
  lemma SetThenLookup(rule: Rule, t: Table, key: Key, v: Value, timeout: int, now: nat, later: nat)
    ensures Lookup(rule, t[key := Entry(v, ExpTimestamp(rule, timeout, now))], key, later)
      == if (rule == Sentinel && timeout < 0) || later < now + timeout then Some(v) else None
  {
    var exp := ExpTimestamp(rule, timeout, now);
    assert Live(rule, exp, later) <==> (rule == Sentinel && timeout < 0) || later < now + timeout;
  }

  /** Under the legacy rule a timeout of zero or less writes a row that no
      read ever sees. */
  lemma LegacyNonPositiveTimeoutIsDead(t: Table, key: Key, v: Value, timeout: int, now: nat)
    requires timeout <= 0
    ensures Lookup(NoSentinel, t[key := Entry(v, ExpTimestamp(NoSentinel, timeout, now))], key, now) == None
  {
    SetThenLookup(NoSentinel, t, key, v, timeout, now, now);
  }

  /** `add` on a live key changes nothing, so a second `add` whose first
      write is still live is a no-op. */
  lemma AddTwiceKeepsFirst(rule: Rule, t: Table, key: Key, e1: Entry, e2: Entry, now: nat)
    requires Live(rule, e1.exp, now)
    ensures AddEntry(rule, AddEntry(rule, t, key, e1, now), key, e2, now) == AddEntry(rule, t, key, e1, now)
  {
    var once := AddEntry(rule, t, key, e1, now);
    assert IsLive(rule, once, key, now);
  }

  /** `add` on an absent or dead key is `set`. */
  lemma AddOnDeadIsSet(rule: Rule, t: Table, key: Key, e: Entry, now: nat)
    requires !IsLive(rule, t, key, now)
    ensures AddEntry(rule, t, key, e, now) == t[key := e]
  {
  }

  /** `update` and `touch` keep the other half of the row and the liveness
      of every key at `now`. */
  lemma UpdateAndTouchKeepTheRest(rule: Rule, t: Table, key: Key, v: Value, exp: int, now: nat)
    requires Live(rule, exp, now)
    ensures IsLive(rule, t, key, now) ==> UpdateValue(rule, t, key, v, now)[key].exp == t[key].exp
    ensures IsLive(rule, t, key, now) ==> TouchExpiry(rule, t, key, exp, now)[key].value == t[key].value
    ensures forall k :: IsLive(rule, UpdateValue(rule, t, key, v, now), k, now) <==> IsLive(rule, t, k, now)
    ensures forall k :: IsLive(rule, TouchExpiry(rule, t, key, exp, now), k, now) <==> IsLive(rule, t, k, now)
  {
    var u := UpdateValue(rule, t, key, v, now);
    var w := TouchExpiry(rule, t, key, exp, now);
    forall k ensures IsLive(rule, u, k, now) <==> IsLive(rule, t, k, now) {
      if k != key {
        assert k in u <==> k in u - {key};
      }
    }
    forall k ensures IsLive(rule, w, k, now) <==> IsLive(rule, t, k, now) {
      if k != key {
        assert k in w <==> k in w - {key};
      }
    }
  }

  /** The deletions the read paths make are invisible to later reads at the
      same time: only rows no read would see are removed. */
  lemma PurgeIsUnobservable(rule: Rule, t: Table, ks: set<Key>, now: nat)
    ensures forall k :: Lookup(rule, PurgeDead(rule, t, ks, now), k, now) == Lookup(rule, t, k, now)
  {
  }

  /** `incr(key, d)` followed by `decr(key, d)` restores the number (as an
      `int`: a stored `True` comes back as `1`) and keeps the expiry. */
  lemma IncrThenDecrRestores(rule: Rule, t: Table, key: Key, delta: int, now: nat)
    requires Increment(rule, t, key, delta, now).Ok?
    ensures var t1 := UpdateValue(rule, t, key, IntValue(Increment(rule, t, key, delta, now).value), now);
      var back := Increment(rule, t1, key, -delta, now);
      back.Ok? && back.value == AsInt(t[key].value) &&
      UpdateValue(rule, t1, key, IntValue(back.value), now) == t[key := Entry(IntValue(AsInt(t[key].value)), t[key].exp)]
  {
    var n := Increment(rule, t, key, delta, now).value;
    var t1 := UpdateValue(rule, t, key, IntValue(n), now);
    assert t1 == t[key := Entry(IntValue(n), t[key].exp)];
    assert IsLive(rule, t1, key, now);
  }

  /** `isinstance(True, int)` holds in Python, so `incr` on a stored `True`
      succeeds and stores `2`. */
  lemma IncrOnTrue(rule: Rule, key: Key, now: nat)
    ensures Increment(rule, map[key := Entry(BoolValue(true), now + 1)], key, 1, now) == Ok(2)
  {
  }

  /** `ttl` right after `set`: the timeout itself, -1 for a negative one,
      and -2 for a zero timeout, whose row is dead at once. */
  lemma TtlAfterSet(t: Table, key: Key, v: Value, timeout: int, now: nat)
    ensures Remaining(t[key := Entry(v, ExpTimestamp(Sentinel, timeout, now))], key, now)
      == if timeout < 0 then -1 else if timeout == 0 then -2 else timeout
  {
  }

  /** The two rules disagree only on the stored value -1: with a
      non-negative timeout both write the same expiry, and on a table
      without a -1 expiry both see the same rows. */
  lemma RulesAgreeWithoutSentinel(t: Table, timeout: int, now: nat)
    requires timeout >= 0
    requires forall k :: k in t ==> t[k].exp != NoExpiry
    ensures ExpTimestamp(Sentinel, timeout, now) == ExpTimestamp(NoSentinel, timeout, now)
    ensures forall k :: Lookup(Sentinel, t, k, now) == Lookup(NoSentinel, t, k, now)
  {
  }

  /** `get` once per key, in order. */
  function EvictEach(rule: Rule, t: Table, keys: seq<Key>, now: nat): Table
    decreases |keys|
  {
    if keys == [] then t else EvictEach(rule, Evict(rule, t, keys[0], now), keys[1..], now)
  }

  lemma PurgeAfterEvict(rule: Rule, t: Table, k: Key, ks: set<Key>, now: nat)
    ensures PurgeDead(rule, Evict(rule, t, k, now), ks, now) == PurgeDead(rule, t, ks + {k}, now)
  {
    var l := PurgeDead(rule, Evict(rule, t, k, now), ks, now);
    var r := PurgeDead(rule, t, ks + {k}, now);
    assert l.Keys == r.Keys;
  }

  /** `get_many(keys)` leaves the table as `get` on each key in turn would,
      and, by `PurgeIsUnobservable`, returns what those reads return. */
  lemma {:induction false} GetManyIsRepeatedGet(rule: Rule, t: Table, keys: seq<Key>, now: nat)
    ensures EvictEach(rule, t, keys, now) == PurgeDead(rule, t, (set k | k in keys), now)
    decreases |keys|
  {
    if keys == [] {
      assert PurgeDead(rule, t, {}, now) == t;
    } else {
      var rest := keys[1..];
      GetManyIsRepeatedGet(rule, Evict(rule, t, keys[0], now), rest, now);
      PurgeAfterEvict(rule, t, keys[0], (set k | k in rest), now);
      assert (set k | k in rest) + {keys[0]} == set k | k in keys by {
        assert keys == [keys[0]] + rest;
      }
    }
  }

  /** `delete` once per key, in order. */
  function DeleteEach(t: Table, keys: seq<Key>): Table
    decreases |keys|
  {
    if keys == [] then t else DeleteEach(t - {keys[0]}, keys[1..])
  }

  /** `delete_many(keys)` is `delete` on each key in turn. */
  lemma {:induction false} DeleteManyIsRepeatedDelete(t: Table, keys: seq<Key>)
    ensures DeleteEach(t, keys) == t - (set k | k in keys)
    decreases |keys|
  {
    if keys != [] {
      var rest := keys[1..];
      DeleteManyIsRepeatedDelete(t - {keys[0]}, rest);
      assert (set k | k in rest) + {keys[0]} == set k | k in keys by {
        assert keys == [keys[0]] + rest;
      }
      assert t - {keys[0]} - (set k | k in rest) == t - (set k | k in keys);
    }
  }

  /** `touch` once per key, in order, all to the same expiry. */
  function TouchEach(rule: Rule, t: Table, keys: seq<Key>, exp: int, now: nat): Table
    decreases |keys|
  {
    if keys == [] then t
    else TouchExpiry(rule, TouchEach(rule, t, keys[..|keys| - 1], exp, now), keys[|keys| - 1], exp, now)
  }

  /** `touch_many(keys)` is `touch` on each key in turn, a repeated key
      included: a row touched once stays live at `now` when `exp` is. */
  lemma {:induction false} TouchManyIsRepeatedTouch(rule: Rule, t: Table, keys: seq<Key>, exp: int, now: nat)
    ensures TouchEach(rule, t, keys, exp, now) == TouchAll(rule, t, (set k | k in keys), exp, now)
    decreases |keys|
  {
    if keys == [] {
      assert TouchAll(rule, t, {}, exp, now) == t;
    } else {
      var init := keys[..|keys| - 1];
      var last := keys[|keys| - 1];
      TouchManyIsRepeatedTouch(rule, t, init, exp, now);
      TouchAllStep(rule, t, (set k | k in init), last, exp, now);
      assert (set k | k in init) + {last} == set k | k in keys by {
        assert keys == init + [last];
      }
    }
  }

  /** `clear_matching_keys("%")` empties the table; the empty pattern
      deletes only the empty key. */
  lemma ClearPatternExtremes(t: Table)
    ensures WithoutMatching(t, "%") == map[]
    ensures WithoutMatching(t, "") == t - {""}
  {
    forall k ensures Like(k, "%") {
      PercentMatchesAll(k);
    }
    assert WithoutMatching(t, "").Keys == (t - {""}).Keys;
  }

  /** After `clear_matching_keys(p)` no row matches `p`, and the rows that
      did not match are untouched. */
  lemma ClearThenFindNothing(t: Table, p: string)
    ensures MatchingKeys(WithoutMatching(t, p), p) == {}
    ensures forall k :: k in t && !Like(k, p) ==> k in WithoutMatching(t, p) && WithoutMatching(t, p)[k] == t[k]
  {
  }
}
