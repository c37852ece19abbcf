# t87s cache engine, modelled in Dafny

t87s is a tag-addressed query cache. A cached query stores its value under a
key together with the tags it depends on, for example `("user", "123")`.
Invalidating a tag at time `now` records that time. Any entry carrying the
tag, or a tag below it, counts as stale from then on. On a read, the engine
makes one of three decisions:

- a fresh, unstale entry is served;
- an entry that is expired or stale but still within its grace window is
  served, and a background refresh is scheduled;
- otherwise the value is fetched and stored.

This project models the parts of the library that hold that logic:

- `duration.dfy`: the duration grammar (`"30s"`, `"100ms"`, ...).
- `tags.dfy`:
  - the escaping tag serialiser;
  - the scanning deserialiser;
  - the ancestor relation on tags.
- `memory_adapter.dfy`: the in-memory adapter, which holds:
  - an LRU-ordered entry table with an optional capacity;
  - a table of per-tag invalidation times.
- `engine.dfy`: what the three engine copies share:
  - expiry and grace;
  - the staleness check;
  - entry construction;
  - the three-way decision;
  - background refresh;
  - invalidation stamping;
  - verification sampling.
- `primitives.dfy`: the primitives API, where every key is addressed as
  `prefix:key`.
- `client.dfy`: the client, in both its asynchronous and its synchronous
  copy:
  - `query` over a query configuration;
  - `mutation`;
  - `invalidate`;
  - `clear`.
- `schema.dfy`: the tag schema at run time:
  - `TagSpec` calls and attribute access;
  - `build_path`;
  - wild nodes and the two field descriptors.
- `query_cache.dfy`: the `@cached` glue:
  - the wildcard-count check;
  - per-call tag building;
  - `QueryCache.invalidate`.
- `scenarios.dfy`: several steps in a row, following the behaviour the
  library's own test suite pins down.
- `types.dfy`: the shared record types:
  - `CacheEntry`;
  - `QueryConfig`;
  - `MutationResult`;
  - `TypedTag`;
  - the errors the library raises.

The model has two layers.

- **Pure layer.** The adapter's whole observable state is the value
  `MemoryAdapter.AdapterState`. Each operation is a pure function over it:
  - `Put`, `AfterGet` and `Drop` on the table;
  - `QueryStep` and `RefreshStep` for a query and a refresh;
  - `StampAll` for invalidation.
- **Object layer.** The adapter, the primitives, the client and the query
  cache are classes. Each method's postcondition equates the new state
  with the pure function of the old state. The properties the library
  promises are lemmas about the pure functions.

Effects become parameters:

- The clock is an integer parameter `now`, in milliseconds.
- What the user's function returns, or raises, is a `Result` parameter.
- The random draw of verification sampling is a parameter.
- A scheduled background refresh is a `Refresh` value appended to the
  object's `pending` list. `RunRefresh` applies it later.

Where the code and its documentation disagree, the model follows the
code. The primitives treat a falsy ttl or grace (absent, `0` or `""`) as
"use the default". The clients parse `config.ttl` always, and use
`config.grace` whenever it is not `None`. The two engines also validate
their settings in different orders. The model keeps both behaviours as
written, and `Scenarios.ZeroDurationsDiffer`,
`Scenarios.EmptyDefaultGraceDiffers` and `Scenarios.ValidationOrderDiffers`
state the differences.

## Model

| member | source | states |
|---|---|---|
| Duration.ParseDuration | src/t87s/duration.py:17-27 | A millisecond count is returned unchanged (0 included). A string that parses gives a non-negative count. A string that fails gives `InvalidDuration` carrying the input. |
| Duration.DigitRun | src/t87s/duration.py:7 | The leading digit run of a string: all digits, and the character after it (if any) is not a digit. |
| Duration.NatDigits | src/t87s/duration.py:7 | The decimal rendering of a natural number is a non-empty digit string. |
| Duration.DigitRunStops | src/t87s/duration.py:7 | A digit prefix followed by a non-digit is exactly the digit run the parser reads. |
| Duration.ParseAcceptsExactlyPattern | src/t87s/duration.py:7-14 | A string parses if and only if it is one or more ASCII digits followed by exactly one of `ms`, `s`, `m`, `h`, `d`. |
| Duration.ParseDigitsUnit | src/t87s/duration.py:22-27 | Digits followed by a unit give the digits' value times that unit's milliseconds. |
| Duration.NatDigitsValue | src/t87s/duration.py:26 | Reading back a rendered number gives the number. |
| Duration.FormatParseRoundTrip | src/t87s/duration.py:7-14 | Writing a count followed by a unit and parsing it gives count × 1 / 1000 / 60000 / 3600000 / 86400000. |
| Duration.ZeroWithAnyUnit | tests/test_duration.py:15-39 | Zero with any unit is 0 ms. |
| Duration.MillisecondsAreNotMinutes | src/t87s/duration.py:7-14 | `"100ms"` is 100 and `"5m"` is 300000: `ms` is never read as minutes. |
| Duration.KnownDurations | src/t87s/duration.py:8-20 | `"30s"`, `"2h"`, `"1d"` and the integer 1000 give 30000, 7200000, 86400000 and 1000. |
| Duration.RejectedDurations | src/t87s/duration.py:22-24 | `""`, `"10"`, `"10x"`, `"s10"` and `"invalid"` are rejected, each with its own text. |
| Tags.SerializeTag | src/t87s/tags.py:39-48 | `serialize_tag`: escape each part, then join the parts with `:`. Its meaning is stated by `Tags.EscapeParts`, `Tags.EscapeIsPerCharacter`, the round trip `Tags.DeserializeSerialize` and `Tags.SerializeInjective`. |
| Tags.EscapeParts | src/t87s/tags.py:48 | Serialisation escapes each part on its own: one escaped string per part. |
| Tags.ReplaceCharConcat | src/t87s/tags.py:42-46 | A single-character replacement distributes over concatenation. |
| Tags.EscapeIsPerCharacter | src/t87s/tags.py:42-46 | The chain "`\` to `\\`, then `:` to `\:`" equals escaping each character independently. Because backslashes are replaced first, the `\` introduced for a colon is never doubled. |
| Tags.UnescapePair | src/t87s/tags.py:59-64 | Exactly `\\` and `\:` are escape pairs, and each denotes its second character. |
| Tags.PrependCompose | src/t87s/tags.py:62-72 | Gluing text onto the current part composes, and gluing nothing changes nothing. |
| Tags.PrependNewPart | src/t87s/tags.py:67-70 | Text glued onto a freshly started part becomes a part of its own. |
| Tags.DeserializeTag | src/t87s/tags.py:51-76 | The scanning loop yields exactly the parts that the specification `SplitUnescaped` denotes, and always at least one part. |
| Tags.SplitAfterEscapedPart | src/t87s/tags.py:57-73 | Reading an escaped part followed by any text glues that part (unescaped) onto the front of what the text denotes. |
| Tags.DeserializeSerialize | src/t87s/tags.py:39-76 | Deserialising a serialised non-empty tag gives the tag back, whatever `:` or `\` its parts contain. |
| Tags.SerializeInjective | src/t87s/tags.py:39-48 | Distinct non-empty tags serialise to distinct strings. |
| Tags.EmptyTagDoesNotRoundTrip | src/t87s/tags.py:75-76 | The empty tag serialises to `""`, which reads back as `("",)`. |
| Tags.KnownSerializations | tests/test_tags.py:50-61 | `("user",)` gives `"user"` and `("user","123")` gives `"user:123"`. |
| Tags.LoneBackslashIsLiteral | src/t87s/tags.py:58-66 | A backslash that escapes nothing, trailing or followed by another character, is kept literally. |
| Tags.OneCharPart | src/t87s/tags.py:71-76 | A single non-colon character is one part. |
| Tags.EscapedColonStaysInPart | src/t87s/tags.py:59-64 | `a\:b` is the single part `a:b`. |
| Tags.IsTagPrefix | src/t87s/tags.py:79-83 | `is_tag_prefix`: the parent is no longer than the child and equals the child's leading parts. `Tags.TagPrefixIffExtension` and `Tags.TagPrefixOrder` state what it means. |
| Tags.TagPrefixIffExtension | src/t87s/tags.py:79-83 | `is_tag_prefix(p, c)` holds exactly when `c` is `p` followed by more parts. |
| Tags.TagPrefixOrder | src/t87s/tags.py:79-83 | The prefix relation is reflexive, transitive and antisymmetric, and is false for a longer parent. |
| MemoryAdapter.InvalidationKey | src/t87s/adapters/memory.py:9-11 | `_serialize_tag`: the parts joined with `:` and no escaping. `MemoryAdapter.InvalidationKeysCollide` shows two tags that share a key. |
| MemoryAdapter.Lookup | src/t87s/adapters/memory.py:23-29 | The answer of `get`: the stored entry, or None for a missing key. `MemoryAdapter.GetMissing` and `MemoryAdapter.GetPresent` state it. |
| MemoryAdapter.AfterGet | src/t87s/adapters/memory.py:26-28 | The table after `get`: a present key is moved to the most recently used end. `MemoryAdapter.GetPresent` states that every entry is kept and the key comes last. |
| MemoryAdapter.Put | src/t87s/adapters/memory.py:31-37 | The table after `set`: store, move to the end, and pop the least recently used key when an enforced capacity is exceeded. `MemoryAdapter.PutUnbounded`, `MemoryAdapter.PutBounded`, `MemoryAdapter.PutRespectsCapacity` and `MemoryAdapter.PutThenLookup` state it. |
| MemoryAdapter.Drop | src/t87s/adapters/memory.py:39-42 | The table after `delete`: the key is popped, if present. `MemoryAdapter.DeleteOnlyThatKey` states it. |
| MemoryAdapter.InvalidationKeysCollide | src/t87s/adapters/memory.py:9-11 | The adapter's tag key is an unescaped `:`-join, so `("a:b",)` and `("a","b")` share one invalidation record. |
| MemoryAdapter.Remove | src/t87s/adapters/memory.py:37-42 | Taking a key out of the order keeps every other key and removes only that one. |
| MemoryAdapter.RemoveKeepsNoDup | src/t87s/adapters/memory.py:37-42 | Removal keeps the order duplicate-free and shortens it by one exactly when the key was present. |
| MemoryAdapter.TouchKeepsNoDup | src/t87s/adapters/memory.py:28-35 | `move_to_end` keeps the order duplicate-free and holds the old keys plus the touched one. |
| MemoryAdapter.EmptyTable | src/t87s/adapters/memory.py:17-19 | The initial table is well formed and empty. |
| MemoryAdapter.StoredWellFormed | src/t87s/adapters/memory.py:34-35 | Storing and touching a key keeps the order and the entries in agreement. |
| MemoryAdapter.PutWellFormed | src/t87s/adapters/memory.py:31-37 | `set`, eviction included, keeps the table well formed. |
| MemoryAdapter.DeleteWellFormed | src/t87s/adapters/memory.py:39-42 | `delete` keeps the table well formed. |
| MemoryAdapter.GetMissing | src/t87s/adapters/memory.py:23-29 | `get` on a missing key answers None and changes nothing. |
| MemoryAdapter.GetPresent | src/t87s/adapters/memory.py:26-28 | `get` on a present key answers its entry, keeps every entry, and makes the key the most recently used. |
| MemoryAdapter.PutUnbounded | src/t87s/adapters/memory.py:34-36 | With no capacity, or a capacity of 0, `set` stores the entry, keeps all others, and makes the key the most recently used. |
| MemoryAdapter.PutBounded | src/t87s/adapters/memory.py:31-37 | With a positive capacity, a `set` that does not overflow keeps everything. One that overflows evicts exactly the least recently used key. |
| MemoryAdapter.PutRespectsCapacity | src/t87s/adapters/memory.py:36-37 | With a positive capacity the table never holds more than that many entries. |
| MemoryAdapter.PutThenLookup | src/t87s/adapters/memory.py:31-37 | A stored entry is what the next `get` of its key returns, unless the capacity is negative. |
| MemoryAdapter.NegativeCapacityDropsInsert | src/t87s/adapters/memory.py:36-37 | A negative capacity is truthy and below every size, so the entry just written into an empty table is evicted again. |
| MemoryAdapter.DeleteOnlyThatKey | src/t87s/adapters/memory.py:39-42 | `delete` removes its key and no other, and is a no-op on a missing key. |
| MemoryAdapter.StampThenRead | src/t87s/adapters/memory.py:44-54 | A tag's invalidation time is the last one set for it, and setting it leaves every tag with a different key unchanged. |
| MemoryAdapter.Adapter.constructor | src/t87s/adapters/memory.py:17-21 | A new adapter has an empty table, no invalidation times, and the given capacity. |
| MemoryAdapter.Adapter.Get | src/t87s/adapters/memory.py:23-29 | Returns the entry the table holds, and touches it. |
| MemoryAdapter.Adapter.Set | src/t87s/adapters/memory.py:31-37 | The new table is `Put` of the old one, and the capacity invariant is kept. |
| MemoryAdapter.Adapter.Delete | src/t87s/adapters/memory.py:39-42 | The new table is `Drop` of the old one. |
| MemoryAdapter.Adapter.GetTagInvalidationTime | src/t87s/adapters/memory.py:44-48 | Answers the time recorded under the tag's key, or None exactly when nothing was recorded. |
| MemoryAdapter.Adapter.SetTagInvalidationTime | src/t87s/adapters/memory.py:50-54 | Records the time under the tag's key and changes nothing else. |
| MemoryAdapter.Adapter.Clear | src/t87s/adapters/memory.py:56-60 | Empties both the entry table and the invalidation times. |
| Engine.IsExpired | src/t87s/primitives.py:186-188 | `_is_expired`: the time is strictly after `expires_at`. `Engine.EntryTimeline` states it for a stored entry. |
| Engine.IsWithinGrace | src/t87s/primitives.py:190-194 | `_is_within_grace`: `grace_until` is present and the time is at most it. `Engine.EntryTimeline` states it for a stored entry. |
| Engine.ShouldVerify | src/t87s/primitives.py:196-204 | `_should_verify`, with the random draw as a parameter. `Engine.ShouldVerifyThresholds` states the thresholds. |
| Engine.ShouldVerifyThresholds | src/t87s/primitives.py:196-204 | A non-verifiable adapter, or a percentage <= 0, never verifies. A percentage >= 1 always does. In between, it verifies exactly when the draw is below the percentage. |
| Engine.ShouldVerifyMonotone | src/t87s/primitives.py:196-204 | Raising `verify_percent`, or drawing a smaller random number, never turns a verification off. |
| Engine.MakeEntry | src/t87s/primitives.py:158-168 | The entry `_store` builds at `now` from a resolved ttl and grace. `Engine.EntryTimeline` states when it is fresh, expired and within grace. |
| Engine.EntryTimeline | src/t87s/primitives.py:158-194 | A stored entry is created at `now` with the given value and tags, and is expired exactly after `now + ttl`. It is within grace exactly when the grace is non-zero and the time is at most `now + ttl + grace`. |
| Engine.Stale | src/t87s/primitives.py:171-184 | The staleness predicate: some tag, or a non-empty proper prefix of it, has a stamp at or after creation. `Engine.IsStale` proves the loop computes it; `Engine.StaleIffAncestorInvalidated` restates it through the prefix relation. |
| Engine.IsStale | src/t87s/primitives.py:171-184 | The nested loop over tags and prefix lengths answers exactly the staleness predicate `Stale`. |
| Engine.StaleIffAncestorInvalidated | src/t87s/async_client.py:54-67 | An entry is stale exactly when one of its tags, or a non-empty proper prefix of it, has an invalidation time at or after the entry's creation. |
| Engine.InvalidatingAncestorMakesStale | src/t87s/client.py:53-66 | Stamping any non-empty ancestor of an entry's tag, at or after its creation, makes the entry stale. |
| Engine.UnrelatedStampKeepsStaleness | src/t87s/client.py:53-66 | A stamp on a key that none of the entry's checked prefixes uses leaves its staleness as it was. |
| Engine.OlderInvalidationsDoNotMatter | src/t87s/primitives.py:180-183 | Invalidations strictly older than an entry never make it stale. |
| Engine.SameMillisecondStampIsStale | src/t87s/primitives.py:180-183 | The comparison is `>=`, so a stamp in the very millisecond of creation makes the entry stale. |
| Engine.Decide | src/t87s/primitives.py:66-90 | The three-way decision: fetch on a miss, serve a fresh unstale entry, serve a stale or expired entry within grace, fetch otherwise. `Engine.FreshHitServesCache`, `Engine.GraceServesStale` and `Engine.MissFetchesAndStores` state each branch. |
| Engine.QueryStep | src/t87s/primitives.py:63-90 | One query against the adapter state: the answer, the new state and whether a refresh is scheduled. The branch lemmas after it state what each outcome does. |
| Engine.FreshHitServesCache | src/t87s/primitives.py:66-77 | A present, unstale, unexpired entry is answered without the fetch outcome being used. Nothing is stored and nothing is scheduled. |
| Engine.GraceServesStale | src/t87s/primitives.py:79-85 | A stale or expired entry within grace is answered, every entry is kept, and a refresh is scheduled. |
| Engine.MissFetchesAndStores | src/t87s/primitives.py:87-90 | A miss, or a stale or expired entry outside grace, answers the fetched value and stores it as a new entry. No refresh is scheduled. |
| Engine.FailedFetchStoresNothing | src/t87s/primitives.py:87-90 | When the query has to fetch and the fetch fails, its error is the answer and nothing is written. The only change is the LRU touch of the `get` before it, so every entry is kept. On a miss the state is exactly as before. |
| Engine.Fetch | src/t87s/primitives.py:63-90 | The fetch closure run against the adapter gives the answer, new state and refresh flag of `QueryStep`. |
| Engine.RefreshStep | src/t87s/primitives.py:229-242 | The state a background refresh leaves: a new entry with the same tags when the fetch succeeds, the old state when it fails. `Scenarios.RefreshStores` states the success case. |
| Engine.RefreshEntry | src/t87s/primitives.py:229-242 | The background refresh leaves the adapter in the state `RefreshStep` describes. |
| Engine.StampAll | src/t87s/primitives.py:133-136 | The invalidation times after every listed tag is stamped with `now`, in order. `Engine.StampAllStamps` states the result. |
| Engine.StampAllStamps | src/t87s/primitives.py:133-136 | Invalidation gives every listed tag's key the time `now`, leaves every other key's time unchanged, and adds no other key. |
| Engine.StampTags | src/t87s/primitives.py:133-136 | The invalidation loop leaves the entries alone and stamps the times as `StampAll` says. |
| PrimitivesEngine.CreateSettings | src/t87s/primitives.py:271-300 | `verify_percent` outside [0,1] is rejected before anything is parsed. Otherwise the default ttl is parsed, then the default grace when it is truthy. The settings keep exactly those values. |
| PrimitivesEngine.ResolveLifetime | src/t87s/primitives.py:158-160 | `_store`'s durations: a truthy ttl or grace is parsed, a falsy one gives the default. `PrimitivesEngine.FalsyDurationsUseDefaults` and `PrimitivesEngine.TruthyDurationsAreParsed` state both cases. |
| PrimitivesEngine.FalsyDurationsUseDefaults | src/t87s/primitives.py:158-160 | An absent, zero or empty ttl or grace gives the default ttl and the default grace. |
| PrimitivesEngine.TruthyDurationsAreParsed | src/t87s/primitives.py:158-160 | A truthy ttl is parsed, and its error is the error. A truthy grace is then parsed and used, and its error is the error. A falsy grace gives the default grace. |
| PrimitivesEngine.FullKey | src/t87s/primitives.py:61 | The adapter key `prefix:key`. `PrimitivesEngine.FullKeyInjective` states that it never merges two keys. |
| PrimitivesEngine.FullKeyInjective | src/t87s/primitives.py:61 | Under one prefix, two keys address the same adapter key exactly when they are equal. |
| PrimitivesEngine.Peek | src/t87s/primitives.py:94-102 | The answer of `get`. `PrimitivesEngine.PeekAgreesWithQuery` and `PrimitivesEngine.PeekIgnoresGrace` relate it to `query`. |
| PrimitivesEngine.PeekAgreesWithQuery | src/t87s/primitives.py:94-102 | `get` answers exactly when `query` would serve a fresh hit, and then both give the same value. |
| PrimitivesEngine.PeekIgnoresGrace | src/t87s/primitives.py:94-102 | An entry that is expired but within grace is still served by `query`, but `get` answers None for it. |
| PrimitivesEngine.Primitives.constructor | src/t87s/primitives.py:271-300 | The object keeps the adapter and the validated settings, with nothing pending. |
| PrimitivesEngine.Primitives.Query | src/t87s/primitives.py:40-92 | Answers what `QueryStep` gives at `prefix:key`, leaves the adapter in its state, and appends a refresh exactly when one is scheduled. The in-flight registration is removed on every outcome. |
| PrimitivesEngine.Primitives.RunRefresh | src/t87s/primitives.py:229-242 | The pending refresh is removed and its `RefreshStep` is applied. |
| PrimitivesEngine.Primitives.Get | src/t87s/primitives.py:94-102 | Answers `Peek` at `prefix:key` (nothing for a missing, stale or expired entry, even within grace). Only the LRU touch changes the state. |
| PrimitivesEngine.Primitives.Set | src/t87s/primitives.py:104-115 | A duration error is reported and nothing is stored. Otherwise the entry built from the parsed durations is stored at `prefix:key`. |
| PrimitivesEngine.Primitives.Store | src/t87s/primitives.py:150-169 | `_store`: resolves the durations, then either fails with their error or writes `MakeEntry` at `now`. |
| PrimitivesEngine.Primitives.Delete | src/t87s/primitives.py:117-120 | Removes the entry at `prefix:key` and nothing else. |
| PrimitivesEngine.Primitives.Invalidate | src/t87s/primitives.py:122-136 | Every listed tag gets the same `now`, whatever `exact` is. The entries are untouched. |
| PrimitivesEngine.Primitives.Clear | src/t87s/primitives.py:138-140 | Empties the entries and the invalidation times. |
| ClientEngine.CreateSettings | src/t87s/async_client.py:23-45 | The default ttl is parsed first, then the default grace whenever it is given, and only then is `verify_percent` outside [0,1] rejected. The settings keep the parsed values. |
| ClientEngine.ResolveLifetime | src/t87s/async_client.py:215-220 | A query's durations: `config.ttl` parsed, `config.grace` parsed when not None, else the default grace. `ClientEngine.ConfiguredDurationsAreUsed` states it. |
| ClientEngine.CacheKey | src/t87s/async_client.py:47-52 | The key `prefix:fn_name:args_hash`, with the argument hash given. |
| ClientEngine.ConfiguredDurationsAreUsed | src/t87s/async_client.py:213-228 | A stored entry uses the parsed `config.ttl` and, when `config.grace` is not None, the parsed grace. Otherwise it uses the default grace. |
| ClientEngine.Client.constructor | src/t87s/client.py:23-44 | The client keeps the adapter and validated settings, with no results, errors or pending refreshes. |
| ClientEngine.Client.Query | src/t87s/async_client.py:182-233 | Answers what `QueryStep` gives at `prefix:fn:args` with the config's durations, and appends a refresh exactly when one is scheduled. The leader's result or error is recorded for waiters, and the in-flight registration is removed on both outcomes. |
| ClientEngine.Client.RunRefresh | src/t87s/client.py:148-177 | The pending refresh is removed and its `RefreshStep` is applied. |
| ClientEngine.Client.Mutation | src/t87s/async_client.py:235-247 | If the function raised, its error is passed on and nothing is invalidated. Otherwise its `invalidates` tags are stamped after it returned, and its `result` is answered. |
| ClientEngine.Client.Invalidate | src/t87s/client.py:246-263 | Every listed tag gets the same `now`. The entries are untouched. |
| ClientEngine.Client.Clear | src/t87s/client.py:265-267 | Empties the entries and the invalidation times. |
| Schema.Call | src/t87s/schema.py:49-55 | `TagSpec.__call__`: append `"*"`. `Schema.CallAndAttrKeepCount` states its effect on the count and the children type. |
| Schema.GetAttr | src/t87s/schema.py:57-82 | `TagSpec.__getattr__`: refuse a `_` name, append any other. `Schema.CallAndAttrKeepCount` states it. |
| Schema.FillPath | src/t87s/schema.py:92-102 | What `build_path` computes: the i-th `"*"` becomes the i-th argument. `Schema.FillPathContract` states it and `Schema.BuildPath` computes it by the source's loop. |
| Schema.CountStarsSnoc | src/t87s/schema.py:84-90 | Appending a segment adds one to the wildcard count exactly when it is `"*"`. |
| Schema.CallAndAttrKeepCount | src/t87s/schema.py:49-82 | A call appends `"*"`, adds exactly one to `wild_count` and keeps the children type. A `_`-name raises AttributeError, and only such a name does. Any other name is appended and leaves `wild_count` as it was. |
| Schema.FillPathContract | src/t87s/schema.py:92-102 | `build_path` fails with IndexError exactly when there are fewer arguments than wildcards. On success the path is as long as the segments: each non-`"*"` segment is copied, and the i-th `"*"` becomes the i-th argument. |
| Schema.FillPathErrorSticks | src/t87s/schema.py:97-101 | Once the arguments run out, the rest of the segments do not matter. |
| Schema.BuildPath | src/t87s/schema.py:92-102 | The loop appending to `result` and bumping `arg_idx` yields exactly `FillPath`. |
| Schema.ClassAccess | src/t87s/schema.py:244-280 | The two descriptors' `__get__` on the class: a wild or static spec over `(name,)`. `Schema.AccessShapes` states the shape. |
| Schema.InstanceAccess | src/t87s/schema.py:244-280 | The two descriptors' `__get__` on an instance: a node or a typed tag at the instance's path plus the name. `Schema.AccessShapes` states the shape. |
| Schema.CallNode | src/t87s/schema.py:187-196 | `WildNode.__call__`: append the id, giving an instance of the children class. `Schema.AccessShapes` and `Schema.InstanceChainPath` state the path it gives. |
| Schema.AccessShapes | src/t87s/schema.py:247-280 | Class access to a field gives segments `(name,)` with `wild_count` 0, and a static spec is always count 0. Instance access to a static field gives `TypedTag(parent + (name,))`. Instance access to a wild field gives a node at `parent + (name,)` whose call appends the id. |
| Schema.FillPathExtraArgs | src/t87s/schema.py:92-102 | Arguments beyond the wildcards are never read. |
| Schema.FillPathNamedStar | src/t87s/schema.py:92-102 | Filling `segs + (name, "*")` fills `segs`, then copies the name and takes the next argument. |
| Schema.ClassChainSegments | src/t87s/schema.py:49-82 | Chaining `a().b()...` on the class gives segments `(a, "*", b, "*", ...)` and counts one wildcard per field. |
| Schema.ChainSegmentsStars | src/t87s/schema.py:84-90 | Those segments hold exactly one `"*"` per field. |
| Schema.InstanceChainPath | src/t87s/schema.py:187-196 | Chaining `a(x).b(y)...` on the instance gives the path `parent + (a, x, b, y, ...)`. |
| Schema.FillChainSegments | src/t87s/schema.py:92-102 | `build_path` of the class chain's segments, with the instance chain's ids, gives that same interleaving. |
| Schema.ClassChainFillsInstancePath | src/t87s/schema.py:49-102 | The class chain and the instance chain agree: the class spec is consistent and counts one wildcard per field, and filling it with the ids yields the instance path. |
| Schema.PostsCommentsExample | src/t87s/schema.py:249 | `posts().comments()` is `("posts","*","comments","*")` with count 2, and `("p1","c1")` fills it to `("posts","p1","comments","c1")`. |
| QueryCacheModel.ToTagSpec | src/t87s/query_cache.py:34-41 | `_to_tag_spec`: keep a spec, unwrap a wild or static view, refuse anything else. `QueryCacheModel.ToTagSpecsContract` states it element by element. |
| QueryCacheModel.ToTagSpecs | src/t87s/query_cache.py:47-49 | The descriptor's conversion of all its specs, in order. `QueryCacheModel.ToTagSpecsContract` states it. |
| QueryCacheModel.ToTagSpecsContract | src/t87s/query_cache.py:34-49 | Specs convert exactly when none is a schema, and the conversion then keeps order and converts each spec on its own (a descriptor view is unwrapped). Otherwise it raises TypeError. |
| QueryCacheModel.MaxWild | src/t87s/query_cache.py:55 | `max(..., default=0)` over the wild counts. `QueryCacheModel.MaxWildIsMaximum` states that it is the maximum. |
| QueryCacheModel.MaxWildIsMaximum | src/t87s/query_cache.py:55 | The maximum wildcard count bounds every spec's count and is attained, and it is 0 when there are no specs. |
| QueryCacheModel.NewDescriptor | src/t87s/query_cache.py:47-61 | `QueryDescriptor.__init__`: convert the specs, then check the wild count against the parameters. `QueryCacheModel.NewDescriptorContract` states when it succeeds. |
| QueryCacheModel.NewDescriptorContract | src/t87s/query_cache.py:47-61 | A descriptor is built exactly when the specs convert and their maximum wildcard count equals the number of non-`self` parameters. Otherwise TypeError is raised, and a built descriptor keeps the name and the specs. |
| QueryCacheModel.SliceEnd | src/t87s/query_cache.py:84 | The end of Python's slice `args[:wild_count]`, clamped to the arguments. |
| QueryCacheModel.CallTags | src/t87s/query_cache.py:83-86 | The tag list `BoundQuery.__call__` builds. `QueryCacheModel.CallTagsContract` states it. |
| QueryCacheModel.CallTagsContract | src/t87s/query_cache.py:83-86 | A call builds one tag per spec, in spec order, each from its spec's own leading `wild_count` positional arguments. It fails with IndexError when some spec runs out of arguments. |
| QueryCacheModel.ValidatedCallBuildsTags | src/t87s/query_cache.py:53-86 | For a descriptor that passed its check and a call with one argument per parameter, tag building always succeeds and each tag fills its spec from the first `wild_count` arguments. |
| QueryCacheModel.Paths | src/t87s/query_cache.py:198-203 | The collected paths are one per argument, in argument order. |
| QueryCacheModel.QueryCache.constructor | src/t87s/query_cache.py:152-170 | The cache owns a fresh primitives object over the adapter with the given settings. A class with a schema parameter gets `t`, a schema instance at the empty path. Without one, reading `t` raises AttributeError. |
| QueryCacheModel.QueryCache.Call | src/t87s/query_cache.py:81-99 | If building the tags fails, that error is raised and nothing changes. Otherwise the call is a primitives `query` with those tags and the default durations, under the given cache key (the `name:args:kwargs` string, taken as opaque). |
| QueryCacheModel.QueryCache.Invalidate | src/t87s/query_cache.py:190-205 | Succeeds exactly when every argument is a tag value, and raises TypeError before invalidating anything otherwise. On success every collected path is stamped with `now`. |
| Scenarios.MissStores | src/t87s/primitives.py:87-90 | A miss stores the fetched value under its key as a fresh entry, keeps the table well formed, and leaves the invalidation times alone. |
| Scenarios.SecondQueryServesFirstFetch | tests/test_client.py:48-63 | A second query within the ttl answers what the first one fetched, whatever its own fetch would give. |
| Scenarios.AncestorInvalidationRefetches | tests/test_client.py:132-152 | After a query tagged `tag`, invalidating any non-empty ancestor of it makes the next query refetch and store the new value. |
| Scenarios.UserInvalidationRefetches | src/t87s/async_client.py:54-67 | Invalidating `("user",)` makes an entry tagged `("user", id)` refetch. |
| Scenarios.ExactInvalidationReachesChildren | src/t87s/async_client.py:249-266 | Stamping `("user",)` makes an entry tagged `("user", id)` stale, so `exact=True` does not limit invalidation to the exact tag, although the docstring says it does. |
| Scenarios.ClientExactInvalidate | src/t87s/client.py:246-263 | After the client's `invalidate([("user",)], exact=True)`, an entry tagged `("user", "123")` is stale. |
| Scenarios.PostKeys | src/t87s/primitives.py:171-184 | The keys checked for `("post","456")` are exactly `"post"` and `"post:456"`. The empty prefix is never looked up. |
| Scenarios.InvalidationIsolation | tests/test_client.py:154-186 | Invalidating `("user","123")` leaves an entry tagged `("post","456")` served from the cache. |
| Scenarios.ClearedCacheMisses | tests/test_client.py:192-212 | After `clear` every key misses and is fetched again. |
| Scenarios.ExpiredEntryRefetches | tests/test_client.py:218-237 | Without grace, a query after the ttl refetches and stores the new value. |
| Scenarios.StoredEntryIsServed | src/t87s/client.py:198-207 | An entry stored at `created`, with no later invalidation, is served until `created + ttl`, and within grace after that. |
| Scenarios.RefreshStores | src/t87s/client.py:155-172 | A successful refresh stores the new entry, keeps the table well formed and leaves the invalidation times alone. |
| Scenarios.GraceServesOldThenRefreshed | tests/test_client.py:243-274 | With grace, the read after expiry answers the old value and schedules a refresh. Once the refresh has run, a later read answers the refreshed value. |
| Scenarios.InterleaveAppend | src/t87s/schema.py:187-196 | Extending the field chain extends the instance path. |
| Scenarios.InterleaveLength | src/t87s/schema.py:187-196 | An instance chain of n fields adds 2n segments. |
| Scenarios.ChainInvalidationReachesDescendants | tests/test_query_cache.py:108-137 | Invalidating the instance chain `t.posts(p1)` makes stale every entry whose tag was built from a class chain extending it. This covers both `get_post("p1")`, tagged by `posts(*)`, and `get_comment("p1", "c1")`, tagged by `posts(*).comments(*)`. |
| Scenarios.ChainInvalidationRefetches | tests/test_query_cache.py:108-137 | After that invalidation, a stored entry with no grace window is fetched again on its next query, and the new value is stored under its key. |
| Scenarios.StoreTwo | src/t87s/adapters/memory.py:31-37 | With capacity 2, two distinct keys are both kept, in insertion order. |
| Scenarios.LruEvictsOldest | tests/adapters/test_memory.py:75-92 | With capacity 2, a third distinct key evicts the first. |
| Scenarios.GetOlderOfTwo | src/t87s/adapters/memory.py:26-28 | Reading the older of two keys makes it the most recently used. |
| Scenarios.StoreThird | src/t87s/adapters/memory.py:36-37 | A third key into a full table of two evicts the front of the order. |
| Scenarios.LruGetProtectsKey | src/t87s/adapters/memory.py:23-37 | Reading the first key before inserting a third protects it, and the second is evicted instead. |
| Scenarios.LruEvictionExample | tests/adapters/test_memory.py:75-92 | `key1`, `key2`, `key3` into capacity 2 leave `key2` and `key3`. |
| Scenarios.ZeroDurationsDiffer | src/t87s/primitives.py:158-160 | The primitives read a ttl and grace of 0 as "use the defaults". The clients store a ttl of 0 with no grace window. |
| Scenarios.EmptyDefaultGraceDiffers | src/t87s/async_client.py:34-37 | An empty default grace is skipped by `create_primitives` but rejected by the client constructor. |
| Scenarios.ValidationOrderDiffers | src/t87s/primitives.py:291-298 | Given both a bad ttl and a bad percentage, the primitives report the percentage and the clients report the ttl. |

## Left out

- The adapter contract (`adapters/base.py`) is not a separate abstract
  interface here. The engines are written against the one concrete
  adapter, `MemoryAdapter.Adapter`. The Redis and cloud adapters are
  network I/O and are not part of this model.
- Concurrency is left out. This covers asyncio locks, events and futures,
  threads, and `create_task`. Coalescing is modelled as sequential
  bookkeeping only: the leader registers its key, runs, records its result
  or its error, and unregisters on every outcome. So the in-flight set is
  empty between calls, and the follower branch that waits on another
  caller never happens. The "exactly one fetch for N concurrent callers"
  claim is not modelled.
- The clients' `results` and `errors` maps only grow in the model. In the
  source, a waiter pops them, and with no waiter they stay behind.
- Verification sampling (`_run_verification`) hashes values with sha256
  over `json.dumps` and runs in the background. It is not modelled. Only
  the threshold logic `_should_verify` is, with the random draw as a
  parameter; the in-memory adapter is not verifiable, so it never fires.
- `_make_cache_key` is not modelled: it serialises the positional
  arguments with `json.dumps` (sorted keys, `str` for anything else),
  hashes that with sha256 and keeps the first 16 hex digits. The client
  takes the function name and that argument hash as given strings. The
  client's key does not include keyword arguments at all, so two calls
  that differ only in keyword arguments share one key.
- The clock is not modelled: `time.time()` float arithmetic becomes an
  integer `now` in milliseconds. The source reads the clock again after
  the user's function returns. The model uses one `now` per step, so an
  entry's creation time is the time of the query.
- Duration.ParseDuration: reads the ASCII grammar. Python's `\d` also
  accepts non-ASCII digits, and `$` also accepts one trailing newline;
  the model does neither.
- Invalidation's `exact` flag is accepted and ignored, because the code
  ignores it: it is assigned to `_` with a comment calling it reserved.
  The clients' docstrings say otherwise: with `exact=True`, only entries
  with the exact tag are invalidated. The model follows the code, so an
  exact invalidation of `("user",)` still reaches `("user", "123")`, as
  `Scenarios.ExactInvalidationReachesChildren` and
  `Scenarios.ClientExactInvalidate` state. Exact-only invalidation is not
  modelled.
- `define_tags` is not part of this model: it wraps caller-supplied
  functions.
- The reflection in `TagSchema.__init_subclass__` is not part of this
  model, and neither are the `get_type_hints` lookups inside
  `TagSpec.__getattr__`. The children types arrive as the data `Hints`.
- Schema.GetAttr: models `TagSpec.__getattr__` for the names it actually
  receives. The names of `TagSpec`'s own attributes (`segments`,
  `wild_count`, `build_path`) are resolved by Python before
  `__getattr__` is ever called.
- Schema.InstanceChain: follows the chain's fields as given. It does not
  check that each field is declared on the children class reached so far.
  In the source, a node whose children class is the bare `TagSchema` has no
  fields, and the next attribute raises AttributeError.
- Arguments are converted with `str()` in `build_path`. The model takes
  the arguments as strings already.
- `disconnect`, the spike modules, `query_awaitable.py` and the
  re-exporting `__init__` modules have no behaviour to model and are left
  out.
- QueryCacheModel.QueryCache.Call: takes the call's cache key as an
  opaque string parameter. The source builds it itself as
  `name:args:kwargs` from the method name and the `str` of the positional
  and keyword arguments; that formatting is not modelled.
- QueryCacheModel.QueryCache.Call: queries with the configured default
  durations only, as `BoundQuery.__call__` does. The async/await
  plumbing of `BoundQuery` is not modelled.
- The synchronous client (`client.py`) imports adapter classes that the
  adapters package does not define. Its logic is modelled from its text,
  over the same in-memory adapter as the asynchronous client.
