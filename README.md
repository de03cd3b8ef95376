# sqlite3-cache, modelled in Dafny

This project models the expiring key/value store of `sqlite3-cache`. It covers two engines:

- the current engine, the `Cache` class of `sqlite3_cache/cache.py`;
- the legacy engine, the `Cache` class of `sqlite_cache/sqlite_cache.py`.

Both engines keep one table, `cache(key PRIMARY KEY, value, exp)`. Every public method is one or two SQL statements plus a little Python logic over that table.

The model works as follows:

- The table is a `map<Key, Entry>` field, `store`, of a Dafny class per engine. The methods change it in place.
- The clock is an explicit `now: nat` in whole seconds.
- Each method's postcondition ties the new `store` (and its result) to a pure transition function of module `Store`. The properties the source promises are proved about those functions.

Files:

- `store.dfy` (module `Store`) holds the shared data model and the transitions:
  - the liveness rule;
  - conditional and unconditional writes;
  - evict-on-read and the batched purge of dead rows;
  - `incr`/`decr` and `ttl`;
  - the row shapes the read paths fetch.

  The engines differ only in their `Rule`:
  - `Sentinel` (current): stored expiry `-1` means "never expires", and a row is live when `exp = -1 OR exp > now`;
  - `NoSentinel` (legacy): every row expires, and a row is live when `exp > now`.
- `like.dfy` (module `SqlLike`) is SQLite's `LIKE` without `ESCAPE`: `%` matches any run, `_` matches one character, and case folding is ASCII-only. It also proves what the `p%`, `%p` and `%p%` wrappers of `find_keys_*` and `clear_keys_*` select.
- `key_order.dfy` (module `KeyOrder`) is `ORDER BY key ASC` under SQLite's default BINARY collation: code-point lexicographic order, proved a strict total order. `SortedKeys` lists a set of keys in that order.
- `sqlite3_cache.dfy` (module `Sqlite3Cache`) is the current engine's class.
- `sqlite_cache.dfy` (module `SqliteCache`) is the legacy engine's class.
- `properties.dfy` (module `CacheProperties`) holds properties across several operations:
  - read-after-write;
  - idempotence of `add`;
  - `incr` then `decr`;
  - `ttl` after `set`;
  - the batch operations as repetitions of the single ones;
  - where the two expiry rules agree.

Two behaviours of the code are easy to miss:

- **Empty batches.** `add_many({})` and `set_many({})` format an `INSERT ... VALUES` with no row tuple. SQLite rejects that statement with `near "ON": syntax error`. So these calls fail (`Fail(SqlSyntaxError)`), and the table is unchanged. This holds for both engines.
- **Empty pattern.** `LIKE ''` matches only the empty key. So `clear_matching_keys("")` deletes at most the row whose key is `""` (`CacheProperties.ClearPatternExtremes`), as lines 569-574 of `tests/test_cache.py` expect.

## Model

| member | source | states |
|---|---|---|
| Store.IsInt | sqlite3_cache/cache.py:415-418 | `isinstance(value, int)` accepts an `int` and a `bool` and rejects `None`, strings and every other value |
| Store.AsInt | sqlite3_cache/cache.py:415-422 | in `value + delta` an int stands for itself, `True` for 1 and `False` for 0 |
| Store.Message | sqlite3_cache/cache.py:411-419 | each exception carries a non-empty text, and the two `ValueError`s of `incr`/`decr` end in a full stop; `Increment` fixes which text each failure carries |
| Store.Live | sqlite3_cache/cache.py:56-59 | under the sentinel rule a stored -1 never expires; any other expiry, and every expiry under the legacy rule, is live exactly before that second |
| Store.Lookup | sqlite3_cache/cache.py:206-224 | a read at `now` yields the stored value exactly when the row is present and live, and nothing otherwise |
| Store.ExpTimestamp | sqlite3_cache/cache.py:174-179 | under the sentinel rule a negative timeout stores -1 and the row is then live at every later time; otherwise the row written at `now` is live exactly at the times before `now + timeout` |
| Store.ExpDatetime | sqlite3_cache/cache.py:180-184 | -1 and only -1 reads back as "no expiry", and the Python check `exp is not None and now >= exp` is exactly the negation of the SQL liveness predicate |
| Store.AddEntry | sqlite3_cache/cache.py:46-50 | the conditional upsert touches no other key; the key then holds its old row if that was live and the new row otherwise |
| Store.UpdateValue | sqlite3_cache/cache.py:60-63 | only a live row changes, it gets the new value with its expiry kept, and the key set and every other row are unchanged |
| Store.TouchExpiry | sqlite3_cache/cache.py:67-69 | only a live row changes, it gets the new expiry with its value kept, and the key set and every other row are unchanged |
| Store.Evict | sqlite3_cache/cache.py:216-222 | a read deletes its key's row exactly when it is present and dead, and nothing else |
| Store.Increment | sqlite3_cache/cache.py:401-449 | fails with the error whose message is "Nonexistent or expired cache key." exactly on an absent or dead key, with the one whose message is "Value is not a number." exactly on a live non-int (bool counts as int), and otherwise returns a number that differs from the stored one by `delta` |
| Store.Remaining | sqlite3_cache/cache.py:476-499 | -2 exactly for an absent or dead key, -1 exactly for a live never-expiring one, otherwise a count of at least one second with `exp == now + r` |
| Store.PurgeDead | sqlite3_cache/cache.py:314-316 | the batched delete of the read paths removes exactly the dead rows among the given keys and leaves every other row as it was |
| Store.MatchingKeys | sqlite3_cache/cache.py:84 | the key set `WHERE key LIKE :pattern` selects is the present keys that match |
| Store.AddAll | sqlite3_cache/cache.py:72-76 | the multi-row conditional upsert keeps every key outside the dict, its keys are the old keys plus the dict's, and each key of the dict keeps its live row or else gets the dict's value with the shared expiry |
| Store.SetAll | sqlite3_cache/cache.py:78-81 | every key of the dict holds its value with the shared expiry, every other row is unchanged |
| Store.UpdateAll | sqlite3_cache/cache.py:340-348 | the key set is unchanged, keys outside the dict keep their rows, and each present key of the dict gets the dict's value with its expiry kept when its row is live and keeps its row otherwise |
| Store.TouchAll | sqlite3_cache/cache.py:350-362 | the key set is unchanged, keys outside the list keep their rows, and each present listed key gets the new expiry with its value kept when its row is live and keeps its row otherwise |
| Store.RowsFor | sqlite3_cache/cache.py:77 | `WHERE key IN (keys)` fetches only rows of requested present keys, with their stored contents, and every requested present key has a row; the model yields one row per requested occurrence, where SQL yields each row once, which no caller can tell apart |
| Store.ExpIndex | sqlite3_cache/cache.py:511 | the dict built from the fetched rows has exactly their keys, each mapped to the expiry of one of its rows |
| Store.IndexExpByKey | sqlite3_cache/cache.py:511 | the comprehension over the fetched rows gives exactly the present requested keys, each with its stored expiry |
| Store.ExpIndexOfRows | sqlite3_cache/cache.py:509-511 | indexing the fetched rows of `keys` gives exactly the present requested keys, each with its stored expiry |
| Store.KeyRows | sqlite3_cache/cache.py:83-84 | the `(key, exp)` rows come one per listed key, in the listed order, with the stored expiry |
| Store.LiveKeysOf | sqlite3_cache/cache.py:549-555 | the kept keys are exactly the keys of the live rows |
| Store.DeadKeysOf | sqlite3_cache/cache.py:549-559 | the keys sent to the batched delete are exactly the keys of the dead rows |
| Store.WithoutMatching | sqlite3_cache/cache.py:85 | `DELETE ... WHERE key LIKE :pattern` removes exactly the matching rows, live or dead, and keeps the others intact |
| Store.LiveKeysOfSorted | sqlite3_cache/cache.py:539-561 | filtering rows with ascending keys yields a strictly ascending list |
| Store.SortedRowsShape | sqlite3_cache/cache.py:83-84 | the ordered `(key, exp)` rows of a key set are strictly ascending, each carries a key of the set with its stored expiry, and every key of the set has a row |
| Store.FilterRows | sqlite3_cache/cache.py:539-561 | filtering rows that cover a key set keeps exactly its live keys and deletes exactly the dead rows among them |
| Store.FilterSortedRows | sqlite3_cache/cache.py:563-590 | listing a key set in key order and filtering it gives its live keys strictly ascending and deletes exactly its dead rows; the listing is empty exactly when the set is |
| Store.DeleteDead | sqlite3_cache/cache.py:314-316 | deleting the collected `to_delete` keys is the purge of the dead rows among the requested keys |
| Store.AddAllStep | sqlite3_cache/cache.py:271-290 | one more row of `add_many`'s statement has the effect of one more `add` with the shared expiry |
| Store.SetAllStep | sqlite3_cache/cache.py:320-338 | one more row of `set_many`'s statement has the effect of one more `set` |
| Store.UpdateAllStep | sqlite3_cache/cache.py:340-348 | one more parameter set of `update_many` has the effect of one more `update` |
| Store.TouchAllStep | sqlite3_cache/cache.py:350-362 | one more parameter set of `touch_many` has the effect of one more `touch`, a repeated key included |
| KeyOrder.Below | sqlite3_cache/cache.py:83 | a proper prefix sorts before each of its extensions, and no key sorts before one of its own prefixes (itself included) |
| KeyOrder.BelowIrreflexive | sqlite3_cache/cache.py:83 | no key sorts before itself |
| KeyOrder.BelowTransitive | sqlite3_cache/cache.py:83 | the key order is transitive |
| KeyOrder.BelowTotal | sqlite3_cache/cache.py:83 | any two distinct keys are ordered one way or the other |
| KeyOrder.LeastExists | sqlite3_cache/cache.py:83 | every non-empty key set has a first key |
| KeyOrder.LeastUnique | sqlite3_cache/cache.py:83 | that first key is unique |
| KeyOrder.SortedKeys | sqlite3_cache/cache.py:83 | `ORDER BY key ASC` lists every key of the set exactly once, strictly ascending |
| SqlLike.Fold | sqlite3_cache/cache.py:591-595 | the case folding maps `A`-`Z` to `a`-`z` and leaves every other character, non-ASCII letters included, unchanged |
| SqlLike.Like | sqlite3_cache/cache.py:84-85 | a matched key has at least as many characters as the pattern has non-`%` characters, and exactly as many as the pattern when it has no `%` |
| SqlLike.EmptyPatternMatchesOnlyEmpty | sqlite3_cache/cache.py:627-637 | the empty pattern matches the empty key and no other |
| SqlLike.PercentMatchesAll | sqlite3_cache/cache.py:576-589 | `%` alone matches every key |
| SqlLike.LikeConcat | sqlite3_cache/cache.py:576-589 | a concatenated pattern matches exactly the keys that split into a part matching each half |
| SqlLike.StartsWithPattern | sqlite3_cache/cache.py:591-601 | `p%` matches exactly the keys with a prefix matching `p` |
| SqlLike.EndsWithPattern | sqlite3_cache/cache.py:603-613 | `%p` matches exactly the keys with a suffix matching `p` |
| SqlLike.ContainsPattern | sqlite3_cache/cache.py:615-625 | `%p%` matches exactly the keys with a contiguous piece matching `p` |
| SqlLike.LiteralLike | sqlite3_cache/cache.py:627-637 | a pattern without wildcards matches exactly the keys equal to it up to ASCII case |
| SqlLike.StartsWithLiteral | sqlite3_cache/cache.py:591-601 | a literal `p%` matches exactly the keys whose first `|p|` characters equal `p` up to ASCII case |
| SqlLike.EndsWithLiteral | sqlite3_cache/cache.py:603-613 | a literal `%p` matches exactly the keys whose last `|p|` characters equal `p` up to ASCII case |
| SqlLike.AsciiOnlyCaseFolding | sqlite3_cache/cache.py:591-601 | `A` matches `a` (`FOO.foo` starts with `foo`, `BAR.FOO` ends with `foo`) but `Ä` does not match `ä` |
| Sqlite3Cache.Cache.constructor | sqlite3_cache/cache.py:41-42 | opening a cache keeps every row already in the table |
| Sqlite3Cache.Cache.Contains | sqlite3_cache/cache.py:148-149 | `key in cache` holds exactly when the key's row is live, and it deletes nothing |
| Sqlite3Cache.Cache.GetItem | sqlite3_cache/cache.py:135-140 | `cache[key]` raises `KeyError` exactly when `get` would return `None` (absent, dead, or a stored `None`) and otherwise returns the live value; the dead row is evicted |
| Sqlite3Cache.Cache.Add | sqlite3_cache/cache.py:192-204 | the table becomes `AddEntry` of the old one: a live key is untouched, an absent or dead one gets the value and a fresh expiry |
| Sqlite3Cache.Cache.Get | sqlite3_cache/cache.py:206-224 | returns the live value or `default`, and deletes the key's row only when it is dead |
| Sqlite3Cache.Cache.Set | sqlite3_cache/cache.py:226-237 | the key holds the value with a fresh expiry and every other row is unchanged |
| Sqlite3Cache.Cache.Update | sqlite3_cache/cache.py:239-248 | the table becomes `UpdateValue` of the old one: a live row's value is replaced, nothing else changes |
| Sqlite3Cache.Cache.Touch | sqlite3_cache/cache.py:250-260 | the table becomes `TouchExpiry` of the old one: a live row's expiry is replaced, nothing else changes |
| Sqlite3Cache.Cache.Delete | sqlite3_cache/cache.py:262-269 | exactly the key's row is removed |
| Sqlite3Cache.Cache.AddMany | sqlite3_cache/cache.py:271-290 | an empty dict fails with a syntax error and changes nothing; otherwise the table becomes `AddAll` with one shared expiry, reached one `add` per key |
| Sqlite3Cache.Cache.GetMany | sqlite3_cache/cache.py:292-318 | the result holds exactly the requested live keys with their values, and exactly the requested dead rows are deleted |
| Sqlite3Cache.Cache.SetMany | sqlite3_cache/cache.py:320-338 | an empty dict fails with a syntax error and changes nothing; otherwise every key of the dict holds its value with one shared expiry |
| Sqlite3Cache.Cache.UpdateMany | sqlite3_cache/cache.py:340-348 | the table becomes `UpdateAll`, reached one `update` per key |
| Sqlite3Cache.Cache.TouchMany | sqlite3_cache/cache.py:350-362 | the table becomes `TouchAll` over the listed keys with one shared expiry, reached one `touch` per list element |
| Sqlite3Cache.Cache.DeleteMany | sqlite3_cache/cache.py:364-371 | exactly the rows of the listed keys are removed |
| Sqlite3Cache.Cache.GetOrSet | sqlite3_cache/cache.py:373-394 | a live value is returned with the table unchanged; otherwise `default` is stored with a fresh expiry and returned |
| Sqlite3Cache.Cache.Clear | sqlite3_cache/cache.py:396-399 | the table is empty |
| Sqlite3Cache.Cache.Incr | sqlite3_cache/cache.py:401-424 | the result is `Increment` with `delta`, and only on success is the live row's value replaced by the returned number, expiry kept |
| Sqlite3Cache.Cache.Decr | sqlite3_cache/cache.py:426-449 | the result is `Increment` with `-delta`, and only on success is the live row's value replaced by the returned number, expiry kept |
| Sqlite3Cache.Cache.Ttl | sqlite3_cache/cache.py:476-499 | returns `Remaining` of the key and deletes its row only when it is dead |
| Sqlite3Cache.Cache.TtlMany | sqlite3_cache/cache.py:501-537 | the result has exactly the requested keys, each with its `Remaining`, and exactly the requested dead rows are deleted |
| Sqlite3Cache.Cache.FilterKeyResultList | sqlite3_cache/cache.py:539-561 | returns the live keys in input order and deletes exactly the keys of the dead rows |
| Sqlite3Cache.Cache.GetAllKeys | sqlite3_cache/cache.py:563-574 | returns exactly the live keys, strictly ascending, and deletes exactly the dead rows |
| Sqlite3Cache.Cache.FindMatchingKeys | sqlite3_cache/cache.py:576-589 | returns exactly the live keys matching the pattern, strictly ascending, and deletes exactly the dead matching rows |
| Sqlite3Cache.Cache.FindKeysStartingWith | sqlite3_cache/cache.py:591-601 | returns exactly the live keys with a prefix matching `p`, strictly ascending |
| Sqlite3Cache.Cache.FindKeysEndingWith | sqlite3_cache/cache.py:603-613 | returns exactly the live keys with a suffix matching `p`, strictly ascending |
| Sqlite3Cache.Cache.FindKeysContaining | sqlite3_cache/cache.py:615-625 | returns exactly the live keys with a piece matching `p`, strictly ascending |
| Sqlite3Cache.Cache.ClearMatchingKeys | sqlite3_cache/cache.py:627-637 | exactly the matching rows are removed, regardless of expiry |
| Sqlite3Cache.Cache.ClearKeysStartingWith | sqlite3_cache/cache.py:639-647 | exactly the rows whose key has a prefix matching `p` are removed, the rest are unchanged |
| Sqlite3Cache.Cache.ClearKeysEndingWith | sqlite3_cache/cache.py:649-657 | exactly the rows whose key has a suffix matching `p` are removed, the rest are unchanged |
| Sqlite3Cache.Cache.ClearKeysContaining | sqlite3_cache/cache.py:659-667 | exactly the rows whose key has a piece matching `p` are removed, the rest are unchanged |
| SqliteCache.Cache.constructor | sqlite_cache/sqlite_cache.py:27-28 | opening a cache keeps every row already in the table |
| SqliteCache.Cache.Contains | sqlite_cache/sqlite_cache.py:113-114 | `key in cache` holds exactly when the row exists with `exp > now`, and it deletes nothing |
| SqliteCache.Cache.GetItem | sqlite_cache/sqlite_cache.py:101-105 | raises `KeyError` exactly when `get` would return `None`, otherwise returns the live value |
| SqliteCache.Cache.Add | sqlite_cache/sqlite_cache.py:150-153 | a row with `exp > now` is untouched, an absent or expired key gets the value and `now + timeout` |
| SqliteCache.Cache.Get | sqlite_cache/sqlite_cache.py:155-168 | returns the value when `exp > now`, else `default` with that row deleted; nothing else changes |
| SqliteCache.Cache.Set | sqlite_cache/sqlite_cache.py:170-173 | the key holds the value with expiry `now + timeout`, every other row unchanged |
| SqliteCache.Cache.Update | sqlite_cache/sqlite_cache.py:175-178 | only a row with `exp > now` gets the new value, expiry kept |
| SqliteCache.Cache.Touch | sqlite_cache/sqlite_cache.py:180-183 | only a row with `exp > now` gets the new expiry, value kept |
| SqliteCache.Cache.Delete | sqlite_cache/sqlite_cache.py:185-187 | exactly the key's row is removed |
| SqliteCache.Cache.AddMany | sqlite_cache/sqlite_cache.py:189-200 | an empty dict fails with a syntax error; otherwise the table becomes `AddAll` under the legacy rule with one shared expiry |
| SqliteCache.Cache.GetMany | sqlite_cache/sqlite_cache.py:202-224 | the result holds exactly the requested keys with `exp > now` and their values, and exactly the other requested present rows are deleted |
| SqliteCache.Cache.SetMany | sqlite_cache/sqlite_cache.py:226-237 | an empty dict fails with a syntax error; otherwise every key of the dict holds its value with one shared expiry |
| SqliteCache.Cache.UpdateMany | sqlite_cache/sqlite_cache.py:239-242 | the table becomes `UpdateAll` under the legacy rule, one `update` per key |
| SqliteCache.Cache.TouchMany | sqlite_cache/sqlite_cache.py:244-248 | the table becomes `TouchAll` under the legacy rule, one `touch` per list element |
| SqliteCache.Cache.DeleteMany | sqlite_cache/sqlite_cache.py:250-252 | exactly the rows of the listed keys are removed |
| SqliteCache.Cache.GetOrSet | sqlite_cache/sqlite_cache.py:254-268 | a live value is returned with the table unchanged; otherwise any dead row is replaced by `default`, which is returned |
| SqliteCache.Cache.Clear | sqlite_cache/sqlite_cache.py:270-272 | the table is empty |
| SqliteCache.Cache.Incr | sqlite_cache/sqlite_cache.py:274-285 | succeeds exactly when `Increment` does, failing with its error otherwise; on success the live row holds `value + delta`, expiry kept |
| SqliteCache.Cache.Decr | sqlite_cache/sqlite_cache.py:287-298 | succeeds exactly when `Increment` with `-delta` does; on success the live row holds `value - delta`, expiry kept |
| CacheProperties.DeadStaysDead | sqlite3_cache/cache.py:56-59 | a row dead at `now` is dead at every later time |
| CacheProperties.SetThenLookup | sqlite3_cache/cache.py:226-237 | after `set` at `now`, `get` at a later time returns the value while the time is before `now + timeout` (always, for a negative timeout under the sentinel rule) and nothing afterwards |
| CacheProperties.LegacyNonPositiveTimeoutIsDead | sqlite_cache/sqlite_cache.py:138-140 | under the legacy rule a `set` with timeout `<= 0` writes a row no read sees |
| CacheProperties.AddTwiceKeepsFirst | sqlite3_cache/cache.py:192-204 | a second `add` while the first write is live changes nothing |
| CacheProperties.AddOnDeadIsSet | sqlite3_cache/cache.py:192-204 | `add` on an absent or dead key is `set` |
| CacheProperties.UpdateAndTouchKeepTheRest | sqlite3_cache/cache.py:239-260 | `update` keeps the expiry, `touch` keeps the value, and neither changes which keys are live, for `touch` when the new expiry is live |
| CacheProperties.PurgeIsUnobservable | sqlite3_cache/cache.py:292-318 | the read paths' deletions never change what a read at the same time returns for any key |
| CacheProperties.IncrThenDecrRestores | sqlite3_cache/cache.py:401-449 | `incr` then `decr` by the same delta returns the original number and leaves the row as it was, except that a stored bool becomes the int it counted as |
| CacheProperties.IncrOnTrue | sqlite3_cache/cache.py:415-422 | `incr` on a stored `True` succeeds with 2 |
| CacheProperties.TtlAfterSet | sqlite3_cache/cache.py:476-499 | `ttl` right after `set` is the timeout, -1 for a negative timeout, and -2 for timeout 0 |
| CacheProperties.RulesAgreeWithoutSentinel | sqlite_cache/sqlite_cache.py:138-140 | for a non-negative timeout both engines store the same expiry, and on a table with no -1 expiry both see the same rows |
| CacheProperties.PurgeAfterEvict | sqlite3_cache/cache.py:206-224 | evicting one key and then purging is one purge over both |
| CacheProperties.GetManyIsRepeatedGet | sqlite3_cache/cache.py:292-318 | `get_many` leaves the table as `get` on each requested key in turn would |
| CacheProperties.DeleteManyIsRepeatedDelete | sqlite3_cache/cache.py:364-371 | `delete_many` is `delete` on each listed key in turn |
| CacheProperties.TouchManyIsRepeatedTouch | sqlite3_cache/cache.py:350-362 | `touch_many` is `touch` on each listed key in turn, repeated keys included |
| CacheProperties.ClearPatternExtremes | sqlite3_cache/cache.py:627-637 | `clear_matching_keys("%")` empties the table and `clear_matching_keys("")` deletes only the empty key |
| CacheProperties.ClearThenFindNothing | sqlite3_cache/cache.py:627-637 | after `clear_matching_keys(p)` no row matches `p` and every non-matching row is intact |

## Left out

- Connection handling is not modelled: the thread-local connection, its reference count, `close` and the context manager. These are resource lifecycle over `sqlite3` and `threading`. The pragmas are not modelled either: the model assumes every pragma at SQLite's default. Every keyword argument of the constructor other than the keys of `DEFAULT_PRAGMA` (for those keys the defaults win) becomes a `PRAGMA` statement, and several change results. For example:
  - `case_sensitive_like` changes key matching (see the `SqlLike.Like` line below);
  - `encoding` set to a UTF-16 encoding on a new database makes the BINARY collation compare UTF-16 bytes, so `ORDER BY key ASC` no longer follows `KeyOrder.Below` (for instance `"\u0101"` then sorts before `"a"`);
  - `query_only` makes every write fail with `sqlite3.OperationalError`.
- SqlLike.Like: the model is SQLite's `LIKE` with the default `case_sensitive_like=OFF`. Because keyword arguments become `PRAGMA` statements, `Cache(..., case_sensitive_like=True)` makes matching case-sensitive, and then every `find_*` and `clear_*` method selects differently from `Like`/`Fold`. The model also has no bound on pattern length: SQLite rejects a pattern longer than `SQLITE_MAX_LIKE_PATTERN_LENGTH` (50000 bytes by default) with `sqlite3.OperationalError` ("LIKE or GLOB pattern too complex") as soon as the table has a row, where the model returns or deletes keys.
- Pickling is not modelled. Values are an opaque datatype with the cases the engine inspects: `None`, `bool` and `int`.
- Time is whole seconds passed in as `now`. Float timestamps are not modelled, and neither is the second truncation of SQLite's `DATETIME(exp, 'unixepoch')`. With whole seconds, the Python check `now >= exp` and the SQL predicate coincide.
- Sqlite3Cache.Cache.Ttl: with float times, `int(seconds left)` can be 0 for a row that is still live under SQL. The source then deletes that row and returns -2. Whole-second time does not show this.
- Sqlite3Cache.Cache.TtlMany: with float times, `ttl_many` has no `<= 0` check after truncating. A row with under a second left comes back as 0 and is kept, where `ttl` returns -2 and deletes it. Whole-second time does not show this.
- SQL text construction is not modelled:
  - Keys are interpolated between quotes into `IN (...)` lists. This breaks on a key containing `'`, and the model treats every key as quoted correctly.
  - The unused `_transaction_sql` is left out.
- Concurrency is not modelled: the atomicity of the upserts against other writers, and the non-atomic read-then-write of `incr`/`decr`. Every operation runs alone.
- `memoize` (current engine) and `memorize` (legacy engine) are left out. Their cache key is derived from Python's `str(func)` and the argument reprs. They are only `get` followed by `set`, both of which are modelled.
- `__setitem__` and `__delitem__` are not separate members. They are exactly `Set` and `Delete`.
- Store.ExpTimestamp: the stored expiry is `now + timeout` for every timeout. In Python, `datetime.now() + timedelta(seconds=timeout)` raises `OverflowError` when `|timeout|` exceeds `timedelta`'s 999999999 days, or when the sum passes year 9999 (for the legacy engine, which has no `< 0` branch, also when it falls before year 1). Every writer that computes an expiry (`add`, `set`, `touch`, `add_many`, `set_many`, `touch_many`, `get_or_set`) then raises and writes nothing observable. `get_or_set` on a dead row has already issued its `DELETE` before computing the expiry. That delete is pending until the next commit (or immediate with `isolation_level=None`), and no read can tell it apart from the dead row (`CacheProperties.PurgeIsUnobservable`). The model has no such bound.
- `add_many` and `set_many` bind three parameters per key in one statement. A dict with more keys than a third of SQLite's host-parameter limit (`SQLITE_MAX_VARIABLE_NUMBER`) fails with "too many SQL variables". The model has no such bound.
- Only string keys are modelled. SQLite would also store other key types.
- `incr` and `decr` on Python integers are unbounded. The model's `int` matches, so there is no wrap-around to model.
