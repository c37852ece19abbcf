/** What the three copies of the query engine share: expiry and grace,
    entry construction, staleness by ancestor invalidation, the three-way
    decision of a query, and invalidation by stamping tags. The copies differ
    only in how they resolve a query's lifetime and in their bookkeeping;
    those parts live in PrimitivesEngine and ClientEngine. */
module Engine {
  import opened Types
  import Tags
  import MA = MemoryAdapter

  // ---------------------------------------------------------------------------
  // Time
  // ---------------------------------------------------------------------------

  /** `_is_expired`. */
  predicate IsExpired<V>(entry: CacheEntry<V>, now: int)
  {
    now > entry.expiresAt
  }

  /** `_is_within_grace`. */
  predicate IsWithinGrace<V>(entry: CacheEntry<V>, now: int)
  {
    entry.graceUntil.Some? && now <= entry.graceUntil.value
  }

  /** `_should_verify`, with the random draw as a parameter. */
  function ShouldVerify(verifiable: bool, percent: real, draw: real): bool
  {
    if !verifiable then false
    else if percent <= 0.0 then false
    else if percent >= 1.0 then true
    else draw < percent
  }

  /** A non-verifiable adapter or a non-positive percentage never verifies,
      a percentage of at least one always does, and in between the draw
      decides. */
  lemma ShouldVerifyThresholds(verifiable: bool, percent: real, draw: real)
    ensures !verifiable || percent <= 0.0 ==> !ShouldVerify(verifiable, percent, draw)
    ensures verifiable && percent >= 1.0 ==> ShouldVerify(verifiable, percent, draw)
    ensures verifiable && 0.0 < percent < 1.0 ==> (ShouldVerify(verifiable, percent, draw) <==> draw < percent)
  {
  }

  /** Sampling is monotone: a larger percentage, or a smaller draw, never
      turns a verification off. */
  lemma ShouldVerifyMonotone(verifiable: bool, percent: real, percent': real, draw: real, draw': real)
    requires percent <= percent' && draw' <= draw
    ensures ShouldVerify(verifiable, percent, draw) ==> ShouldVerify(verifiable, percent', draw')
  {
  }

  /** The lifetime a store gives an entry: its ttl and its grace, both in
      milliseconds, the grace possibly absent. */
  datatype Lifetime = Lifetime(ttlMs: int, graceMs: Option<int>)

  /** The entry a store builds at `now`. A grace of zero means no grace
      window. */
  function MakeEntry<V>(value: V, tags: seq<Tag>, now: int, life: Lifetime): CacheEntry<V>
  {
    CacheEntry(value, tags, now, now + life.ttlMs,
      if life.graceMs.Some? && life.graceMs.value != 0 then Some(now + life.ttlMs + life.graceMs.value) else None)
  }

  /** The life of a stored entry: fresh up to and including `now + ttl`,
      then expired; served from grace exactly in the `grace` milliseconds
      after that, and only when the grace is non-zero. */
  lemma EntryTimeline<V>(value: V, tags: seq<Tag>, created: int, life: Lifetime, now: int)
    ensures IsExpired(MakeEntry(value, tags, created, life), now) <==> now > created + life.ttlMs
    ensures IsWithinGrace(MakeEntry(value, tags, created, life), now) <==>
      life.graceMs.Some? && life.graceMs.value != 0 && now <= created + life.ttlMs + life.graceMs.value
    ensures MakeEntry(value, tags, created, life).createdAt == created
    ensures MakeEntry(value, tags, created, life).value == value && MakeEntry(value, tags, created, life).tags == tags
  {
  }

  // ---------------------------------------------------------------------------
  // Staleness
  // ---------------------------------------------------------------------------

  /** The prefix lengths `_is_stale` looks up for a tag: the tag itself and
      each non-empty proper prefix. */
  predicate Checked(tag: Tag, n: int)
  {
    n == |tag| || 1 <= n < |tag|
  }

  /** `tag` has an invalidation time at or after `since`. */
  predicate InvalidatedSince(inv: map<string, int>, tag: Tag, since: int)
  {
    MA.InvalidationKey(tag) in inv && inv[MA.InvalidationKey(tag)] >= since
  }

  /** An entry is stale when one of its tags, or a non-empty proper prefix
      of one, was invalidated at or after the entry was created. */
  predicate Stale<V>(inv: map<string, int>, entry: CacheEntry<V>)
  {
    exists i, n | 0 <= i < |entry.tags| && 0 <= n <= |entry.tags[i]| ::
      Checked(entry.tags[i], n) && InvalidatedSince(inv, entry.tags[i][..n], entry.createdAt)
  }

  /** `_is_stale`: the nested loop over tags and prefixes, leaving at the
      first hit. */
  method IsStale<V>(adapter: MA.Adapter<V>, entry: CacheEntry<V>) returns (stale: bool)
    ensures stale == Stale(adapter.invalidations, entry)
  {
    var inv := adapter.invalidations;
    var i := 0;
    while i < |entry.tags|
      invariant 0 <= i <= |entry.tags|
      invariant forall j, n | 0 <= j < i && 0 <= n <= |entry.tags[j]| ::
        !(Checked(entry.tags[j], n) && InvalidatedSince(inv, entry.tags[j][..n], entry.createdAt))
    {
      var tag := entry.tags[i];
      var time := adapter.GetTagInvalidationTime(tag);
      if time.Some? && time.value >= entry.createdAt {
        assert tag[..|tag|] == tag;
        return true;
      }
      var k := 1;
      while k < |tag|
        invariant 1 <= k && (k <= |tag| || |tag| == 0)
        invariant forall n | 1 <= n < k && n < |tag| :: !InvalidatedSince(inv, tag[..n], entry.createdAt)
      {
        var parent := tag[..k];
        time := adapter.GetTagInvalidationTime(parent);
        if time.Some? && time.value >= entry.createdAt {
          return true;
        }
        k := k + 1;
      }
      assert tag[..|tag|] == tag;
      i := i + 1;
    }
    return false;
  }

  /** Staleness in the words of the tag relation: some tag of the entry has
      an invalidated ancestor that is the tag itself or non-empty. */
  lemma StaleIffAncestorInvalidated<V>(inv: map<string, int>, entry: CacheEntry<V>)
    ensures Stale(inv, entry) <==>
      exists i, p | 0 <= i < |entry.tags| && Tags.IsTagPrefix(p, entry.tags[i]) ::
        (|p| >= 1 || p == entry.tags[i]) && InvalidatedSince(inv, p, entry.createdAt)
  {
    if Stale(inv, entry) {
      var i, n :| 0 <= i < |entry.tags| && 0 <= n <= |entry.tags[i]| &&
        Checked(entry.tags[i], n) && InvalidatedSince(inv, entry.tags[i][..n], entry.createdAt);
      var p := entry.tags[i][..n];
      assert Tags.IsTagPrefix(p, entry.tags[i]);
      assert n == |entry.tags[i]| ==> p == entry.tags[i];
    }
    if exists i, p | 0 <= i < |entry.tags| && Tags.IsTagPrefix(p, entry.tags[i]) ::
        (|p| >= 1 || p == entry.tags[i]) && InvalidatedSince(inv, p, entry.createdAt) {
      var i, p :| 0 <= i < |entry.tags| && Tags.IsTagPrefix(p, entry.tags[i]) &&
        (|p| >= 1 || p == entry.tags[i]) && InvalidatedSince(inv, p, entry.createdAt);
      assert entry.tags[i][..|p|] == p;
      assert Checked(entry.tags[i], |p|);
    }
  }

  /** Stamping a non-empty ancestor of one of an entry's tags at or after
      the entry's creation makes the entry stale. */
  lemma InvalidatingAncestorMakesStale<V>(inv: map<string, int>, entry: CacheEntry<V>, i: int, p: Tag, now: int)
    requires 0 <= i < |entry.tags| && Tags.IsTagPrefix(p, entry.tags[i]) && |p| >= 1
    requires now >= entry.createdAt
    ensures Stale(inv[MA.InvalidationKey(p) := now], entry)
  {
    var inv' := inv[MA.InvalidationKey(p) := now];
    assert InvalidatedSince(inv', p, entry.createdAt);
    StaleIffAncestorInvalidated(inv', entry);
  }

  /** A stamp on a key that none of the entry's checked prefixes uses leaves
      the entry's staleness as it was. */
  lemma UnrelatedStampKeepsStaleness<V>(inv: map<string, int>, entry: CacheEntry<V>, key: string, now: int)
    requires forall i, n | 0 <= i < |entry.tags| && 0 <= n <= |entry.tags[i]| ::
      Checked(entry.tags[i], n) ==> MA.InvalidationKey(entry.tags[i][..n]) != key
    ensures Stale(inv[key := now], entry) == Stale(inv, entry)
  {
    var inv' := inv[key := now];
    if Stale(inv', entry) {
      var i, n :| 0 <= i < |entry.tags| && 0 <= n <= |entry.tags[i]| &&
        Checked(entry.tags[i], n) && InvalidatedSince(inv', entry.tags[i][..n], entry.createdAt);
      assert InvalidatedSince(inv, entry.tags[i][..n], entry.createdAt);
    }
    if Stale(inv, entry) {
      var i, n :| 0 <= i < |entry.tags| && 0 <= n <= |entry.tags[i]| &&
        Checked(entry.tags[i], n) && InvalidatedSince(inv, entry.tags[i][..n], entry.createdAt);
      assert InvalidatedSince(inv', entry.tags[i][..n], entry.createdAt);
    }
  }

  /** Invalidations strictly older than an entry never make it stale. */
  lemma OlderInvalidationsDoNotMatter<V>(inv: map<string, int>, entry: CacheEntry<V>)
    requires forall k | k in inv :: inv[k] < entry.createdAt
    ensures !Stale(inv, entry)
  {
  }

  /** The comparison is `>=`: a stamp in the very millisecond an entry was
      created makes it stale, so an entry is never fresh against an
      invalidation of its tag issued in the same millisecond. */
  lemma SameMillisecondStampIsStale<V>(inv: map<string, int>, entry: CacheEntry<V>, i: int)
    requires 0 <= i < |entry.tags|
    ensures Stale(inv[MA.InvalidationKey(entry.tags[i]) := entry.createdAt], entry)
  {
    var tag := entry.tags[i];
    assert tag[..|tag|] == tag;
    assert InvalidatedSince(inv[MA.InvalidationKey(tag) := entry.createdAt], entry.tags[i][..|tag|], entry.createdAt);
  }

  // ---------------------------------------------------------------------------
  // The query decision
  // ---------------------------------------------------------------------------

  datatype Decision = ServeFresh | ServeStale | FetchAndStore

  /** What a query does with what the adapter returned. */
  function Decide<V>(found: Option<CacheEntry<V>>, inv: map<string, int>, now: int): Decision
  {
    if found.None? then FetchAndStore
    else if !Stale(inv, found.value) && !IsExpired(found.value, now) then ServeFresh
    else if IsWithinGrace(found.value, now) then ServeStale
    else FetchAndStore
  }

  /** The outcome of one query against the adapter state: the answer, the
      new state, and whether a background refresh was scheduled. */
  datatype Step<V> = Step(result: Result<V>, state: MA.AdapterState<V>, refresh: bool)

  /** The `fetch` closure of a query. `fetched` is what calling the user's
      function gives, `life` what resolving the query's durations gives. */
  function QueryStep<V>(s: MA.AdapterState<V>, maxItems: Option<int>, key: string, tags: seq<Tag>,
                        fetched: Result<V>, life: Result<Lifetime>, now: int): Step<V>
  {
    var found := MA.Lookup(s.table, key);
    var read := MA.AdapterState(MA.AfterGet(s.table, key), s.invalidations);
    match Decide(found, s.invalidations, now)
    case ServeFresh => Step(Ok(found.value.value), read, false)
    case ServeStale => Step(Ok(found.value.value), read, true)
    case FetchAndStore =>
      if fetched.Err? then Step(Err(fetched.error), read, false)
      else if life.Err? then Step(Err(life.error), read, false)
      else Step(fetched, MA.AdapterState(MA.Put(read.table, key, MakeEntry(fetched.value, tags, now, life.value), maxItems), s.invalidations), false)
  }

  /** What a background refresh writes: a new entry when the fetch and the
      durations succeed, nothing otherwise (errors are swallowed). */
  function RefreshStep<V>(s: MA.AdapterState<V>, maxItems: Option<int>, key: string, tags: seq<Tag>,
                          fetched: Result<V>, life: Result<Lifetime>, now: int): MA.AdapterState<V>
  {
    if fetched.Err? || life.Err? then s
    else MA.AdapterState(MA.Put(s.table, key, MakeEntry(fetched.value, tags, now, life.value), maxItems), s.invalidations)
  }

  /** A fresh, unstale hit answers the cached value, ignores what the fetch
      would give, stores nothing and schedules nothing. */
  lemma FreshHitServesCache<V>(s: MA.AdapterState<V>, maxItems: Option<int>, key: string, tags: seq<Tag>,
                               fetched: Result<V>, life: Result<Lifetime>, now: int)
    requires MA.WellFormed(s.table) && key in s.table.entries
    requires !Stale(s.invalidations, s.table.entries[key]) && !IsExpired(s.table.entries[key], now)
    ensures QueryStep(s, maxItems, key, tags, fetched, life, now).result == Ok(s.table.entries[key].value)
    ensures QueryStep(s, maxItems, key, tags, fetched, life, now).state.table.entries == s.table.entries
    ensures QueryStep(s, maxItems, key, tags, fetched, life, now).state.invalidations == s.invalidations
    ensures !QueryStep(s, maxItems, key, tags, fetched, life, now).refresh
  {
    MA.GetPresent(s.table, key);
  }

  /** A stale or expired entry within grace is still served, leaves every
      entry in place, and schedules exactly one refresh. */
  lemma GraceServesStale<V>(s: MA.AdapterState<V>, maxItems: Option<int>, key: string, tags: seq<Tag>,
                            fetched: Result<V>, life: Result<Lifetime>, now: int)
    requires MA.WellFormed(s.table) && key in s.table.entries
    requires Stale(s.invalidations, s.table.entries[key]) || IsExpired(s.table.entries[key], now)
    requires IsWithinGrace(s.table.entries[key], now)
    ensures QueryStep(s, maxItems, key, tags, fetched, life, now).result == Ok(s.table.entries[key].value)
    ensures QueryStep(s, maxItems, key, tags, fetched, life, now).state.table.entries == s.table.entries
    ensures QueryStep(s, maxItems, key, tags, fetched, life, now).refresh
  {
    MA.GetPresent(s.table, key);
  }

  /** A miss, or a stale or expired entry outside grace, answers what the
      fetch gives; when the fetch and the durations succeed, the new entry
      is stored under the key, created now, with the query's tags. */
  lemma MissFetchesAndStores<V>(s: MA.AdapterState<V>, maxItems: Option<int>, key: string, tags: seq<Tag>,
                                value: V, life: Lifetime, now: int)
    requires MA.WellFormed(s.table) && (maxItems.None? || maxItems.value >= 0)
    requires key !in s.table.entries ||
      ((Stale(s.invalidations, s.table.entries[key]) || IsExpired(s.table.entries[key], now)) &&
       !IsWithinGrace(s.table.entries[key], now))
    ensures QueryStep(s, maxItems, key, tags, Ok(value), Ok(life), now).result == Ok(value)
    ensures MA.Lookup(QueryStep(s, maxItems, key, tags, Ok(value), Ok(life), now).state.table, key)
      == Some(MakeEntry(value, tags, now, life))
    ensures !QueryStep(s, maxItems, key, tags, Ok(value), Ok(life), now).refresh
  {
    var read := MA.AfterGet(s.table, key);
    if key in s.table.entries {
      MA.GetPresent(s.table, key);
    }
    MA.PutThenLookup(read, key, MakeEntry(value, tags, now, life), maxItems);
  }

  /** When the query has to fetch and the fetch fails, the error is the
      answer and nothing is written: the only change is the LRU touch of
      the `get` that came first, so every entry is kept, and on a miss the
      state is exactly as before. */
  lemma FailedFetchStoresNothing<V>(s: MA.AdapterState<V>, maxItems: Option<int>, key: string, tags: seq<Tag>,
                                    error: Error, life: Result<Lifetime>, now: int)
    requires MA.WellFormed(s.table)
    requires Decide(MA.Lookup(s.table, key), s.invalidations, now) == FetchAndStore
    ensures QueryStep(s, maxItems, key, tags, Err(error), life, now).result == Err(error)
    ensures QueryStep(s, maxItems, key, tags, Err(error), life, now).state ==
      MA.AdapterState(MA.AfterGet(s.table, key), s.invalidations)
    ensures QueryStep(s, maxItems, key, tags, Err(error), life, now).state.table.entries == s.table.entries
    ensures key !in s.table.entries ==> QueryStep(s, maxItems, key, tags, Err(error), life, now).state == s
  {
    if key in s.table.entries {
      MA.GetPresent(s.table, key);
    } else {
      MA.GetMissing(s.table, key);
    }
  }

  // ---------------------------------------------------------------------------
  // Imperative steps on the adapter
  // ---------------------------------------------------------------------------

  /** The `fetch` closure, run against the adapter. */
  method Fetch<V>(adapter: MA.Adapter<V>, key: string, tags: seq<Tag>, fetched: Result<V>,
                  life: Result<Lifetime>, now: int) returns (r: Result<V>, refresh: bool)
    requires adapter.Valid()
    modifies adapter
    ensures adapter.Valid()
    ensures var step := QueryStep(old(adapter.State()), adapter.maxItems, key, tags, fetched, life, now);
      r == step.result && refresh == step.refresh && adapter.State() == step.state
  {
    ghost var s0 := adapter.State();
    ghost var step := QueryStep(s0, adapter.maxItems, key, tags, fetched, life, now);
    ghost var decision := Decide(MA.Lookup(s0.table, key), s0.invalidations, now);
    refresh := false;
    var entry := adapter.Get(key);
    assert adapter.State() == MA.AdapterState(MA.AfterGet(s0.table, key), s0.invalidations);
    if entry.Some? {
      var stale := IsStale(adapter, entry.value);
      var expired := IsExpired(entry.value, now);
      if !stale && !expired {
        assert decision == ServeFresh;
        r := Ok(entry.value.value);
        return;
      }
      if IsWithinGrace(entry.value, now) {
        assert decision == ServeStale;
        r := Ok(entry.value.value);
        refresh := true;
        return;
      }
    }
    assert decision == FetchAndStore;
    if fetched.Err? {
      r := Err(fetched.error);
      return;
    }
    if life.Err? {
      r := Err(life.error);
      return;
    }
    adapter.Set(key, MakeEntry(fetched.value, tags, now, life.value));
    r := fetched;
  }

  /** A background refresh, run against the adapter. */
  method RefreshEntry<V>(adapter: MA.Adapter<V>, key: string, tags: seq<Tag>, fetched: Result<V>,
                    life: Result<Lifetime>, now: int)
    requires adapter.Valid()
    modifies adapter
    ensures adapter.Valid()
    ensures adapter.State() == RefreshStep(old(adapter.State()), adapter.maxItems, key, tags, fetched, life, now)
  {
    if fetched.Ok? && life.Ok? {
      adapter.Set(key, MakeEntry(fetched.value, tags, now, life.value));
    }
  }

  // ---------------------------------------------------------------------------
  // Invalidation
  // ---------------------------------------------------------------------------

  /** The invalidation table after every tag of `tags` is stamped with
      `now`, in order. */
  function StampAll(inv: map<string, int>, tags: seq<Tag>, now: int): map<string, int>
  {
    if tags == [] then inv
    else StampAll(inv, tags[..|tags| - 1], now)[MA.InvalidationKey(tags[|tags| - 1]) := now]
  }

  /** Some tag of `tags` uses `key`. */
  predicate Stamped(tags: seq<Tag>, key: string)
  {
    exists i | 0 <= i < |tags| :: MA.InvalidationKey(tags[i]) == key
  }

  /** Stamping gives every listed tag the time `now` and leaves every other
      key as it was. */
  lemma {:induction false} StampAllStamps(inv: map<string, int>, tags: seq<Tag>, now: int)
    ensures forall k :: k in StampAll(inv, tags, now) <==> k in inv || Stamped(tags, k)
    ensures forall k | Stamped(tags, k) :: StampAll(inv, tags, now)[k] == now
    ensures forall k | k in inv && !Stamped(tags, k) :: StampAll(inv, tags, now)[k] == inv[k]
  {
    if tags != [] {
      var init := tags[..|tags| - 1];
      StampAllStamps(inv, init, now);
      forall k ensures Stamped(tags, k) <==> Stamped(init, k) || k == MA.InvalidationKey(tags[|tags| - 1]) {
        if Stamped(tags, k) {
          var i :| 0 <= i < |tags| && MA.InvalidationKey(tags[i]) == k;
          if i < |tags| - 1 {
            assert init[i] == tags[i];
          }
        }
        if Stamped(init, k) {
          var i :| 0 <= i < |init| && MA.InvalidationKey(init[i]) == k;
          assert tags[i] == init[i];
        }
      }
    }
  }

  /** `invalidate`'s loop: every listed tag is stamped with the same `now`;
      the entry table is untouched. */
  method StampTags<V>(adapter: MA.Adapter<V>, tags: seq<Tag>, now: int)
    requires adapter.Valid()
    modifies adapter
    ensures adapter.Valid()
    ensures adapter.State() == MA.AdapterState(old(adapter.Contents()), StampAll(old(adapter.invalidations), tags, now))
  {
    for i := 0 to |tags|
      invariant adapter.Valid()
      invariant adapter.State() == MA.AdapterState(old(adapter.Contents()), StampAll(old(adapter.invalidations), tags[..i], now))
    {
      adapter.SetTagInvalidationTime(tags[i], now);
      assert tags[..i + 1][..i] == tags[..i];
    }
    assert tags[..|tags|] == tags;
  }
}
