/** The `cache(key PRIMARY KEY, value, exp)` table both engines keep, as a
    finite map from key to entry, and the pure transitions their SQL
    statements perform on it. The two engines differ only in their expiry
    `Rule`: the current one reads `exp == -1` as "never expires", the legacy
    one has no such sentinel. */
module Store {
  import opened SqlLike
  import opened KeyOrder

  type Key = string

  /** A value as it comes back from the codec. The engine only ever asks
      whether a value is an `int` (`isinstance(value, int)`, for which Python's
      `bool` counts) and whether it is `None`; every other value is opaque. */
  datatype Value =
    | NoneValue
    | BoolValue(b: bool)
    | IntValue(n: int)
    | StrValue(s: string)
    | OtherValue(id: nat)

  /** `isinstance(value, int)`: an `int` and a `bool` pass, `None`, a string
      and every other value do not. */
  predicate IsInt(v: Value)
    ensures v.IntValue? || v.BoolValue? ==> IsInt(v)
    ensures v.NoneValue? || v.StrValue? || v.OtherValue? ==> !IsInt(v)
  {
    v.BoolValue? || v.IntValue?
  }

  /** The integer an `int`-like value stands for in `value + delta`. */
  function AsInt(v: Value): (r: int)
    requires IsInt(v)
    ensures v.IntValue? ==> r == v.n
    ensures v.BoolValue? ==> 0 <= r <= 1 && (r == 1 <==> v.b)
  {
    match v
    case BoolValue(b) => if b then 1 else 0
    case IntValue(n) => n
  }

  /** One row: the stored value and its expiry timestamp in whole seconds. */
  datatype Entry = Entry(value: Value, exp: int)

  /** The table; the map's keys are the PRIMARY KEY. */
  type Table = map<Key, Entry>

  datatype Option<T> = None | Some(value: T)
  {
    function GetOr(default: T): T
    {
      match this
      case Some(v) => v
      case None => default
    }
  }

  /** The exceptions the engines raise. */
  datatype CacheError =
    | NonexistentOrExpired  // ValueError from incr/decr
    | NotANumber            // ValueError from incr/decr
    | KeyNotInCache         // KeyError from indexing
    | SqlSyntaxError        // sqlite3.OperationalError from a malformed statement

  /** The text each exception carries; every one says something. */
  function Message(e: CacheError): (m: string)
    ensures m != []
    ensures e.NonexistentOrExpired? || e.NotANumber? ==> m[|m| - 1] == '.'
  {
    match e
    case NonexistentOrExpired => "Nonexistent or expired cache key."
    case NotANumber => "Value is not a number."
    case KeyNotInCache => "Key not in cache."
    case SqlSyntaxError => "near \"ON\": syntax error"
  }

  datatype Result<T> = Ok(value: T) | Err(error: CacheError)

  datatype Outcome = Pass | Fail(error: CacheError)

  /** Which expiry rule an engine follows. */
  datatype Rule = Sentinel | NoSentinel

  /** The stored expiry meaning "never expires" under `Sentinel`. */
  const NoExpiry: int := -1

  /** Seconds an entry lives when the caller gives no timeout. */
  const DefaultTimeout: int := 300

  /** The SQL liveness predicate: `exp = -1.0 OR exp > now` for the current
      engine, `exp > now` for the legacy one. */
  predicate Live(rule: Rule, exp: int, now: nat)
    ensures rule == Sentinel && exp == NoExpiry ==> Live(rule, exp, now)
    ensures rule == NoSentinel || exp != NoExpiry ==> (Live(rule, exp, now) <==> now < exp)
  {
    (rule == Sentinel && exp == NoExpiry) || exp > now
  }

  predicate IsLive(rule: Rule, t: Table, key: Key, now: nat)
  {
    key in t && Live(rule, t[key].exp, now)
  }

  /** `_exp_timestamp`: the expiry stored for a write at `now` with `timeout`.
      An entry so written is live at a later time exactly when the timeout
      is negative under the sentinel rule, or that time is before
      `now + timeout`; under the legacy rule a negative timeout therefore
      writes an entry that is already dead. */
  function ExpTimestamp(rule: Rule, timeout: int, now: nat): (exp: int)
    ensures forall later: nat {:trigger Live(rule, exp, later)} ::
      Live(rule, exp, later) <==> (rule == Sentinel && timeout < 0) || later < now + timeout
  {
    if rule == Sentinel && timeout < 0 then NoExpiry else now + timeout
  }

  /** `_exp_datetime`: `None` for the sentinel, the timestamp otherwise. The
      check the read paths make on it in Python (`exp is not None and
      now >= exp`) is exactly the negation of the SQL liveness predicate. */
  function ExpDatetime(exp: int): (d: Option<int>)
    ensures d.None? <==> exp == NoExpiry
    ensures forall now: nat {:trigger Live(Sentinel, exp, now)} ::
      (d.Some? && now >= d.value) <==> !Live(Sentinel, exp, now)
  {
    if exp == NoExpiry then None else Some(exp)
  }

  /** What a read of `key` at `now` observes. */
  function Lookup(rule: Rule, t: Table, key: Key, now: nat): (r: Option<Value>)
    ensures r.Some? <==> key in t && Live(rule, t[key].exp, now)
    ensures r.Some? ==> r.value == t[key].value
  {
    if IsLive(rule, t, key, now) then Some(t[key].value) else None
  }

  /** The conditional upsert of `add`: the row is written only when the key
      is absent or dead. */
  function AddEntry(rule: Rule, t: Table, key: Key, e: Entry, now: nat): (r: Table)
    ensures r - {key} == t - {key}
    ensures key in r && r[key] == (if IsLive(rule, t, key, now) then t[key] else e)
  {
    if key in t && Live(rule, t[key].exp, now) then t else t[key := e]
  }

  /** `update`: replaces the value of a live row, keeping its expiry. */
  function UpdateValue(rule: Rule, t: Table, key: Key, v: Value, now: nat): (r: Table)
    ensures r - {key} == t - {key}
    ensures r.Keys == t.Keys
    ensures IsLive(rule, t, key, now) ==> r[key] == Entry(v, t[key].exp)
    ensures !IsLive(rule, t, key, now) ==> r == t
  {
    if IsLive(rule, t, key, now) then t[key := Entry(v, t[key].exp)] else t
  }

  /** `touch`: replaces the expiry of a live row, keeping its value. */
  function TouchExpiry(rule: Rule, t: Table, key: Key, exp: int, now: nat): (r: Table)
    ensures r - {key} == t - {key}
    ensures r.Keys == t.Keys
    ensures IsLive(rule, t, key, now) ==> r[key] == Entry(t[key].value, exp)
    ensures !IsLive(rule, t, key, now) ==> r == t
  {
    if IsLive(rule, t, key, now) then t[key := t[key].(exp := exp)] else t
  }

  /** The side effect of reading `key`: a dead row is deleted, nothing else. */
  function Evict(rule: Rule, t: Table, key: Key, now: nat): (r: Table)
    ensures r - {key} == t - {key}
    ensures key in r <==> IsLive(rule, t, key, now)
    ensures key in r ==> r[key] == t[key]
  {
    if key in t && !Live(rule, t[key].exp, now) then t - {key} else t
  }

  /** The outcome of `incr(key, delta)` (and of `decr`, with `-delta`). */
  function Increment(rule: Rule, t: Table, key: Key, delta: int, now: nat): (r: Result<int>)
    ensures r == Err(NonexistentOrExpired) <==> !IsLive(rule, t, key, now)
    ensures r == Err(NotANumber) <==> IsLive(rule, t, key, now) && !IsInt(t[key].value)
    ensures r.Ok? <==> IsLive(rule, t, key, now) && IsInt(t[key].value)
    ensures r.Ok? ==> r.value - delta == AsInt(t[key].value)
    ensures r.Err? ==>
      Message(r.error) == if IsLive(rule, t, key, now) then "Value is not a number." else "Nonexistent or expired cache key."
  {
    if !IsLive(rule, t, key, now) then Err(NonexistentOrExpired)
    else if !IsInt(t[key].value) then Err(NotANumber)
    else Ok(AsInt(t[key].value) + delta)
  }

  /** `ttl`: -2 for an absent or dead key, -1 for one that never expires,
      otherwise the whole seconds left, which are at least one. */
  function Remaining(t: Table, key: Key, now: nat): (r: int)
    ensures r == -2 <==> !IsLive(Sentinel, t, key, now)
    ensures r == -1 <==> IsLive(Sentinel, t, key, now) && t[key].exp == NoExpiry
    ensures r != -1 && r != -2 ==> r >= 1 && IsLive(Sentinel, t, key, now) && t[key].exp == now + r
  {
    if key !in t then -2
    else if t[key].exp == NoExpiry then -1
    else if t[key].exp - now <= 0 then -2
    else t[key].exp - now
  }

  /** The batched `DELETE ... WHERE key IN (...)` of the read paths: the
      dead rows among the keys `ks` go, every other row stays as it was. */
  function PurgeDead(rule: Rule, t: Table, ks: set<Key>, now: nat): (r: Table)
    ensures forall k :: k in r <==> k in t && (k in ks ==> Live(rule, t[k].exp, now))
    ensures forall k :: k in r ==> r[k] == t[k]
  {
    map k | k in t && (k !in ks || Live(rule, t[k].exp, now)) :: t[k]
  }

  /** Deleting exactly the dead rows among `ks` is `PurgeDead`. */
  lemma DeleteDead(rule: Rule, t: Table, ks: set<Key>, dead: set<Key>, now: nat)
    requires forall k :: k in dead <==> k in ks && k in t && !Live(rule, t[k].exp, now)
    ensures t - dead == PurgeDead(rule, t, ks, now)
  {
    assert (t - dead).Keys == PurgeDead(rule, t, ks, now).Keys;
  }

  /** The keys of the rows `key LIKE pattern` selects. */
  function MatchingKeys(t: Table, pattern: string): (r: set<Key>)
    ensures forall k :: k in r <==> k in t && Like(k, pattern)
  {
    set k | k in t && Like(k, pattern)
  }

  /** The multi-row conditional upsert of `add_many`: every key of `m` whose
      row is absent or dead gets `m`'s value and `exp`; nothing else changes. */
  function AddAll(rule: Rule, t: Table, m: map<Key, Value>, exp: int, now: nat): (r: Table)
    ensures r - m.Keys == t - m.Keys
    ensures r.Keys == t.Keys + m.Keys
    ensures forall k :: k in m ==> r[k] == if IsLive(rule, t, k, now) then t[k] else Entry(m[k], exp)
  {
    map k | k in t.Keys + m.Keys ::
      if k in m && !IsLive(rule, t, k, now) then Entry(m[k], exp) else t[k]
  }

  /** The multi-row unconditional upsert of `set_many`. */
  function SetAll(t: Table, m: map<Key, Value>, exp: int): (r: Table)
    ensures r - m.Keys == t - m.Keys
    ensures forall k :: k in m ==> k in r && r[k] == Entry(m[k], exp)
  {
    t + map k | k in m :: Entry(m[k], exp)
  }

  /** `update_many`: `update` for every key of `m`. */
  function UpdateAll(rule: Rule, t: Table, m: map<Key, Value>, now: nat): (r: Table)
    ensures r.Keys == t.Keys
    ensures r - m.Keys == t - m.Keys
    ensures forall k :: k in m && k in t ==>
      r[k] == if IsLive(rule, t, k, now) then Entry(m[k], t[k].exp) else t[k]
  {
    map k | k in t :: if k in m && IsLive(rule, t, k, now) then Entry(m[k], t[k].exp) else t[k]
  }

  /** `touch_many`: `touch` for every key of `ks`, all to the same expiry. */
  function TouchAll(rule: Rule, t: Table, ks: set<Key>, exp: int, now: nat): (r: Table)
    ensures r.Keys == t.Keys
    ensures r - ks == t - ks
    ensures forall k :: k in ks && k in t ==>
      r[k] == if IsLive(rule, t, k, now) then Entry(t[k].value, exp) else t[k]
  {
    map k | k in t :: if k in ks && IsLive(rule, t, k, now) then Entry(t[k].value, exp) else t[k]
  }

  /** The rows `SELECT key, value, exp FROM cache WHERE key IN (keys)` fetches:
      one per requested key that is present. */
  function RowsFor(t: Table, keys: seq<Key>): (rows: seq<(Key, Entry)>)
    ensures forall r :: r in rows ==> r.0 in keys && r.0 in t && r.1 == t[r.0]
    ensures forall k :: k in keys && k in t ==> (k, t[k]) in rows
  {
    if keys == [] then []
    else (if keys[0] in t then [(keys[0], t[keys[0]])] else []) + RowsFor(t, keys[1..])
  }

  /** `{key: exp for key, _, exp in rows}`: a later row of a key overrides an
      earlier one. */
  function ExpIndex(rows: seq<(Key, Entry)>): (m: map<Key, int>)
    ensures forall k :: k in m <==> exists j :: 0 <= j < |rows| && rows[j].0 == k
    ensures forall k :: k in m ==> exists j :: 0 <= j < |rows| && rows[j].0 == k && rows[j].1.exp == m[k]
    decreases |rows|
  {
    if rows == [] then map[]
    else
      var last := rows[|rows| - 1];
      var init := rows[..|rows| - 1];
      assert forall j :: 0 <= j < |init| ==> init[j] == rows[j];
      ExpIndex(init)[last.0 := last.1.exp]
  }

  /** Indexing the fetched rows of `keys` by key gives each present
      requested key its stored expiry. */
  lemma ExpIndexOfRows(t: Table, keys: seq<Key>)
    ensures forall k :: k in ExpIndex(RowsFor(t, keys)) <==> k in keys && k in t
    ensures forall k :: k in ExpIndex(RowsFor(t, keys)) ==> ExpIndex(RowsFor(t, keys))[k] == t[k].exp
  {
    var rows := RowsFor(t, keys);
    var m := ExpIndex(rows);
    forall k | k in m ensures k in keys && k in t && m[k] == t[k].exp {
      var j :| 0 <= j < |rows| && rows[j].0 == k && rows[j].1.exp == m[k];
      assert rows[j] in rows;
    }
    forall k | k in keys && k in t ensures k in m {
      var j :| 0 <= j < |rows| && rows[j] == (k, t[k]);
    }
  }

  /** The comprehension `{key: exp for key, _, exp in rows}` run over the
      rows fetched for `keys`: each present requested key comes out with its
      stored expiry, and nothing else does. */
  method IndexExpByKey(rows: seq<(Key, Entry)>, ghost t: Table, ghost keys: seq<Key>) returns (m: map<Key, int>)
    requires rows == RowsFor(t, keys)
    ensures forall k :: k in m <==> k in keys && k in t
    ensures forall k :: k in m ==> m[k] == t[k].exp
  {
    m := map[];
    for j := 0 to |rows|
      invariant m == ExpIndex(rows[..j])
    {
      assert rows[..j + 1][..j] == rows[..j];
      m := m[rows[j].0 := rows[j].1.exp];
    }
    assert rows[..|rows|] == rows;
    ExpIndexOfRows(t, keys);
  }

  /** The `(key, exp)` rows of the keys `ks`, in the order of `ks`. */
  function KeyRows(t: Table, ks: seq<Key>): (rows: seq<(Key, int)>)
    requires forall k :: k in ks ==> k in t
    ensures |rows| == |ks|
    ensures forall j :: 0 <= j < |ks| ==> rows[j] == (ks[j], t[ks[j]].exp)
  {
    seq(|ks|, j requires 0 <= j < |ks| => (ks[j], t[ks[j]].exp))
  }

  /** The keys of the live rows, in row order. */
  function LiveKeysOf(rule: Rule, rows: seq<(Key, int)>, now: nat): (r: seq<Key>)
    ensures forall k :: k in r <==> exists j :: 0 <= j < |rows| && rows[j].0 == k && Live(rule, rows[j].1, now)
    decreases |rows|
  {
    if rows == [] then []
    else
      var last := rows[|rows| - 1];
      var init := rows[..|rows| - 1];
      assert forall j :: 0 <= j < |init| ==> init[j] == rows[j];
      LiveKeysOf(rule, init, now) + (if Live(rule, last.1, now) then [last.0] else [])
  }

  /** The keys of the dead rows. */
  function DeadKeysOf(rule: Rule, rows: seq<(Key, int)>, now: nat): (r: set<Key>)
    ensures forall k :: k in r <==> exists j :: 0 <= j < |rows| && rows[j].0 == k && !Live(rule, rows[j].1, now)
  {
    set j | 0 <= j < |rows| && !Live(rule, rows[j].1, now) :: rows[j].0
  }

  /** `DELETE FROM cache WHERE key LIKE pattern`. */
  function WithoutMatching(t: Table, pattern: string): (r: Table)
    ensures forall k :: k in r <==> k in t && !Like(k, pattern)
    ensures forall k :: k in r ==> r[k] == t[k]
  {
    map k | k in t && !Like(k, pattern) :: t[k]
  }

  /** Filtering keeps the order: live keys of ascending rows are ascending. */
  lemma {:induction false} LiveKeysOfSorted(rule: Rule, rows: seq<(Key, int)>, now: nat)
    requires forall i, j :: 0 <= i < j < |rows| ==> Below(rows[i].0, rows[j].0)
    ensures StrictlySorted(LiveKeysOf(rule, rows, now))
    decreases |rows|
  {
    if rows != [] {
      var init := rows[..|rows| - 1];
      var last := rows[|rows| - 1];
      LiveKeysOfSorted(rule, init, now);
      var front := LiveKeysOf(rule, init, now);
      forall x | x in front ensures Below(x, last.0) {
        var j :| 0 <= j < |init| && init[j].0 == x && Live(rule, init[j].1, now);
        assert init[j] == rows[j];
      }
    }
  }

  /** The `(key, exp)` rows of the keys `ks` in ascending key order: their
      keys are ascending, and each key of `ks` has exactly its row. */
  lemma SortedRowsShape(t: Table, ks: set<Key>, rows: seq<(Key, int)>)
    requires ks <= t.Keys
    requires rows == KeyRows(t, SortedKeys(ks))
    ensures forall i, j :: 0 <= i < j < |rows| ==> Below(rows[i].0, rows[j].0)
    ensures forall j :: 0 <= j < |rows| ==> rows[j].0 in ks && rows[j].1 == t[rows[j].0].exp
    ensures forall k :: k in ks ==> exists j :: 0 <= j < |rows| && rows[j].0 == k
    ensures rows == [] <==> ks == {}
  {
    var ordered := SortedKeys(ks);
    forall k | k in ks ensures exists j :: 0 <= j < |rows| && rows[j].0 == k {
      var j :| 0 <= j < |ordered| && ordered[j] == k;
      assert rows[j].0 == k;
    }
    forall j | 0 <= j < |rows| ensures rows[j].0 in ks {
      assert rows[j].0 == ordered[j];
    }
  }

  /** Filtering rows that hold exactly the keys `ks` with their stored
      expiries lists the live ones and deletes exactly the dead ones. */
  lemma FilterRows(rule: Rule, t: Table, ks: set<Key>, rows: seq<(Key, int)>, now: nat)
    requires forall j :: 0 <= j < |rows| ==> rows[j].0 in ks && rows[j].0 in t && rows[j].1 == t[rows[j].0].exp
    requires forall k :: k in ks ==> k in t && exists j :: 0 <= j < |rows| && rows[j].0 == k
    ensures forall k :: k in LiveKeysOf(rule, rows, now) <==> k in ks && Live(rule, t[k].exp, now)
    ensures t - DeadKeysOf(rule, rows, now) == PurgeDead(rule, t, ks, now)
  {
    var dead := DeadKeysOf(rule, rows, now);
    assert forall k :: k in dead <==> k in ks && !Live(rule, t[k].exp, now);
    assert (t - dead).Keys == PurgeDead(rule, t, ks, now).Keys;
  }

  /** Filtering the ascending `(key, exp)` rows of the keys `ks` lists their
      live keys in ascending order and deletes exactly their dead rows. */
  lemma FilterSortedRows(rule: Rule, t: Table, ks: set<Key>, rows: seq<(Key, int)>, now: nat)
    requires ks <= t.Keys
    requires rows == KeyRows(t, SortedKeys(ks))
    ensures StrictlySorted(LiveKeysOf(rule, rows, now))
    ensures forall k :: k in LiveKeysOf(rule, rows, now) <==> k in ks && Live(rule, t[k].exp, now)
    ensures t - DeadKeysOf(rule, rows, now) == PurgeDead(rule, t, ks, now)
    ensures rows == [] <==> ks == {}
  {
    SortedRowsShape(t, ks, rows);
    LiveKeysOfSorted(rule, rows, now);
    FilterRows(rule, t, ks, rows, now);
  }

  /** One more row of `add_many`'s statement is one more `add`. */
  lemma AddAllStep(rule: Rule, t: Table, m: map<Key, Value>, k: Key, v: Value, exp: int, now: nat)
    requires k !in m
    ensures AddEntry(rule, AddAll(rule, t, m, exp, now), k, Entry(v, exp), now) == AddAll(rule, t, m[k := v], exp, now)
  {
    var before := AddAll(rule, t, m, exp, now);
    assert IsLive(rule, before, k, now) <==> IsLive(rule, t, k, now);
  }

  /** One more row of `set_many`'s statement is one more `set`. */
  lemma SetAllStep(t: Table, m: map<Key, Value>, k: Key, v: Value, exp: int)
    ensures SetAll(t, m, exp)[k := Entry(v, exp)] == SetAll(t, m[k := v], exp)
  {
  }

  /** One more parameter set of `update_many` is one more `update`. */
  lemma UpdateAllStep(rule: Rule, t: Table, m: map<Key, Value>, k: Key, v: Value, now: nat)
    requires k !in m
    ensures UpdateValue(rule, UpdateAll(rule, t, m, now), k, v, now) == UpdateAll(rule, t, m[k := v], now)
  {
    var before := UpdateAll(rule, t, m, now);
    assert IsLive(rule, before, k, now) <==> IsLive(rule, t, k, now);
  }

  /** One more parameter set of `touch_many` is one more `touch`, even for a
      key already touched. */
  lemma TouchAllStep(rule: Rule, t: Table, ks: set<Key>, k: Key, exp: int, now: nat)
    ensures TouchExpiry(rule, TouchAll(rule, t, ks, exp, now), k, exp, now) == TouchAll(rule, t, ks + {k}, exp, now)
  {
    var before := TouchAll(rule, t, ks, exp, now);
    if k !in ks {
      assert IsLive(rule, before, k, now) <==> IsLive(rule, t, k, now);
    }
  }
}
