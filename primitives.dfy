/** The primitives API: `query`, `get`, `set`, `delete`, `invalidate` and
    `clear` over one adapter, every key addressed as `prefix:key`. A ttl or
    grace that is falsy (absent, 0 or "") falls back to the defaults. */
module PrimitivesEngine {
  import opened Types
  import opened Duration
  import MA = MemoryAdapter
  import opened Engine

  /** What `create_primitives` validates and keeps. */
  datatype Settings = Settings(prefix: string, defaultTtl: int, defaultGrace: Option<int>, verifyPercent: real)

  /** Python truthiness of an optional duration: absent, 0 and "" are
      false. */
  predicate Truthy(d: Option<DurationInput>)
  {
    d.Some? && d.value != Millis(0) && d.value != Text("")
  }

  /** `create_primitives`: the percentage is checked first, then the
      default ttl is parsed, then the default grace when it is truthy. */
  function CreateSettings(prefix: string, defaultTtl: DurationInput, defaultGrace: Option<DurationInput>,
                          verifyPercent: real): (r: Result<Settings>)
    ensures !(0.0 <= verifyPercent <= 1.0) ==> r == Err(VerifyPercentOutOfRange)
    ensures r.Ok? <==> (0.0 <= verifyPercent <= 1.0 && ParseDuration(defaultTtl).Ok? &&
                        (Truthy(defaultGrace) ==> ParseDuration(defaultGrace.value).Ok?))
    ensures r.Ok? ==> (r.value.prefix == prefix && r.value.verifyPercent == verifyPercent &&
                       r.value.defaultTtl == ParseDuration(defaultTtl).value &&
                       r.value.defaultGrace == (if Truthy(defaultGrace) then Some(ParseDuration(defaultGrace.value).value) else None))
  {
    if !(0.0 <= verifyPercent <= 1.0) then Err(VerifyPercentOutOfRange)
    else
      var ttl := ParseDuration(defaultTtl);
      if ttl.Err? then Err(ttl.error)
      else if !Truthy(defaultGrace) then Ok(Settings(prefix, ttl.value, None, verifyPercent))
      else
        var grace := ParseDuration(defaultGrace.value);
        if grace.Err? then Err(grace.error)
        else Ok(Settings(prefix, ttl.value, Some(grace.value), verifyPercent))
  }

  /** `_store`'s durations: a truthy ttl or grace is parsed (ttl first),
      a falsy one is replaced by the default. */
  function ResolveLifetime(settings: Settings, ttl: Option<DurationInput>, grace: Option<DurationInput>): Result<Lifetime>
  {
    var ttlMs := if Truthy(ttl) then ParseDuration(ttl.value) else Ok(settings.defaultTtl);
    var graceMs := if Truthy(grace) then ParseDuration(grace.value) else Ok(0);
    if ttlMs.Err? then Err(ttlMs.error)
    else if graceMs.Err? then Err(graceMs.error)
    else Ok(Lifetime(ttlMs.value, if Truthy(grace) then Some(graceMs.value) else settings.defaultGrace))
  }

  /** Absent, zero and empty durations all give the defaults. */
  lemma FalsyDurationsUseDefaults(settings: Settings, ttl: Option<DurationInput>, grace: Option<DurationInput>)
    requires ttl in {None, Some(Millis(0)), Some(Text(""))}
    requires grace in {None, Some(Millis(0)), Some(Text(""))}
    ensures ResolveLifetime(settings, ttl, grace) == Ok(Lifetime(settings.defaultTtl, settings.defaultGrace))
  {
  }

  /** A truthy duration is parsed; a bad one is reported, the ttl's error
      before the grace's. */
  lemma TruthyDurationsAreParsed(settings: Settings, ttl: DurationInput, grace: Option<DurationInput>)
    requires Truthy(Some(ttl))
    ensures ParseDuration(ttl).Err? ==> ResolveLifetime(settings, Some(ttl), grace) == Err(ParseDuration(ttl).error)
    ensures ParseDuration(ttl).Ok? && Truthy(grace) && ParseDuration(grace.value).Ok? ==>
      ResolveLifetime(settings, Some(ttl), grace) == Ok(Lifetime(ParseDuration(ttl).value, Some(ParseDuration(grace.value).value)))
    ensures ParseDuration(ttl).Ok? && Truthy(grace) && ParseDuration(grace.value).Err? ==>
      ResolveLifetime(settings, Some(ttl), grace) == Err(ParseDuration(grace.value).error)
  {
  }

  /** The adapter key of a primitives key. */
  function FullKey(prefix: string, key: string): string
  {
    prefix + ":" + key
  }

  /** Under one prefix, distinct keys never share an adapter key. */
  lemma FullKeyInjective(prefix: string, a: string, b: string)
    ensures FullKey(prefix, a) == FullKey(prefix, b) <==> a == b
  {
    if FullKey(prefix, a) == FullKey(prefix, b) {
      assert a == FullKey(prefix, a)[|prefix| + 1..];
      assert b == FullKey(prefix, b)[|prefix| + 1..];
    }
  }

  /** `get`'s answer: nothing for a missing, stale or expired entry, even
      one within grace. */
  function Peek<V>(s: MA.AdapterState<V>, key: string, now: int): Option<V>
  {
    var found := MA.Lookup(s.table, key);
    if found.None? || Stale(s.invalidations, found.value) || IsExpired(found.value, now) then None
    else Some(found.value.value)
  }

  /** `get` answers exactly when `query` would serve a fresh hit, and then
      both give the same value. */
  lemma PeekAgreesWithQuery<V>(s: MA.AdapterState<V>, maxItems: Option<int>, key: string, tags: seq<Tag>,
                               fetched: Result<V>, life: Result<Lifetime>, now: int)
    requires MA.WellFormed(s.table)
    ensures Peek(s, key, now).Some? <==> Decide(MA.Lookup(s.table, key), s.invalidations, now) == ServeFresh
    ensures Peek(s, key, now).Some? ==> QueryStep(s, maxItems, key, tags, fetched, life, now).result == Ok(Peek(s, key, now).value)
  {
  }

  /** Within grace, `query` still serves the old value but `get` answers
      nothing. */
  lemma PeekIgnoresGrace<V>(s: MA.AdapterState<V>, key: string, now: int)
    requires key in s.table.entries && IsExpired(s.table.entries[key], now) && IsWithinGrace(s.table.entries[key], now)
    ensures Peek(s, key, now) == None
    ensures Decide(MA.Lookup(s.table, key), s.invalidations, now) == ServeStale
  {
  }

  /** A background refresh the primitives scheduled: where to store and
      how to resolve its durations. */
  datatype Refresh = Refresh(key: string, tags: seq<Tag>, ttl: Option<DurationInput>, grace: Option<DurationInput>)

  /** The `Primitives` object. `inFlight` is the coalescing registry, empty
      between calls; `pending` holds the refreshes scheduled and not yet
      run. */
  class Primitives<V> {
    const adapter: MA.Adapter<V>
    const settings: Settings
    var inFlight: set<string>
    var pending: seq<Refresh>

    ghost predicate Valid()
      reads this, adapter
    {
      adapter.Valid() && inFlight == {} && 0.0 <= settings.verifyPercent <= 1.0
    }

    constructor (adapter: MA.Adapter<V>, settings: Settings)
      requires adapter.Valid() && 0.0 <= settings.verifyPercent <= 1.0
      ensures Valid() && this.adapter == adapter && this.settings == settings && pending == []
    {
      this.adapter := adapter;
      this.settings := settings;
      inFlight := {};
      pending := [];
    }

    /** `query`: the key is registered as in flight, the fetch closure runs,
        and the registration is removed whatever the outcome. */
    method Query(key: string, tags: seq<Tag>, ttl: Option<DurationInput>, grace: Option<DurationInput>,
                 fetched: Result<V>, now: int) returns (r: Result<V>)
      requires Valid()
      modifies this, adapter
      ensures Valid()
      ensures var step := QueryStep(old(adapter.State()), adapter.maxItems, FullKey(settings.prefix, key), tags,
                                    fetched, ResolveLifetime(settings, ttl, grace), now);
        r == step.result && adapter.State() == step.state &&
        pending == old(pending) + (if step.refresh then [Refresh(FullKey(settings.prefix, key), tags, ttl, grace)] else [])
    {
      var fullKey := FullKey(settings.prefix, key);
      inFlight := inFlight + {fullKey};
      var refresh;
      r, refresh := Fetch(adapter, fullKey, tags, fetched, ResolveLifetime(settings, ttl, grace), now);
      if refresh {
        pending := pending + [Refresh(fullKey, tags, ttl, grace)];
      }
      inFlight := inFlight - {fullKey};
    }

    /** Runs the `i`-th scheduled refresh with what its fetch gives. */
    method RunRefresh(i: nat, fetched: Result<V>, now: int)
      requires Valid() && i < |pending|
      modifies this, adapter
      ensures Valid()
      ensures var task := old(pending[i]);
        adapter.State() == RefreshStep(old(adapter.State()), adapter.maxItems, task.key, task.tags, fetched,
                                       ResolveLifetime(settings, task.ttl, task.grace), now)
      ensures pending == old(pending[..i] + pending[i + 1..])
    {
      var task := pending[i];
      pending := pending[..i] + pending[i + 1..];
      RefreshEntry(adapter, task.key, task.tags, fetched, ResolveLifetime(settings, task.ttl, task.grace), now);
    }

    /** `get`: reads through the adapter, so a hit is touched. */
    method Get(key: string, now: int) returns (value: Option<V>)
      requires Valid()
      modifies adapter
      ensures Valid()
      ensures value == Peek(old(adapter.State()), FullKey(settings.prefix, key), now)
      ensures adapter.State() == MA.AdapterState(MA.AfterGet(old(adapter.Contents()), FullKey(settings.prefix, key)), old(adapter.invalidations))
    {
      var entry := adapter.Get(FullKey(settings.prefix, key));
      if entry.None? {
        return None;
      }
      var stale := IsStale(adapter, entry.value);
      if stale || IsExpired(entry.value, now) {
        return None;
      }
      return Some(entry.value.value);
    }

    /** `set`, through `_store`. */
    method Set(key: string, value: V, tags: seq<Tag>, ttl: DurationInput, grace: Option<DurationInput>, now: int)
      returns (r: Result<()>)
      requires Valid()
      modifies adapter
      ensures Valid()
      ensures var life := ResolveLifetime(settings, Some(ttl), grace);
        r == (if life.Err? then Err(life.error) else Ok(())) &&
        adapter.State() == RefreshStep(old(adapter.State()), adapter.maxItems, FullKey(settings.prefix, key), tags, Ok(value), life, now)
    {
      r := Store(FullKey(settings.prefix, key), value, tags, Some(ttl), grace, now);
    }

    /** `_store`: resolves the durations, builds the entry and writes it. */
    method Store(key: string, value: V, tags: seq<Tag>, ttl: Option<DurationInput>, grace: Option<DurationInput>, now: int)
      returns (r: Result<()>)
      requires Valid()
      modifies adapter
      ensures Valid()
      ensures var life := ResolveLifetime(settings, ttl, grace);
        r == (if life.Err? then Err(life.error) else Ok(())) &&
        adapter.State() == RefreshStep(old(adapter.State()), adapter.maxItems, key, tags, Ok(value), life, now)
    {
      var life := ResolveLifetime(settings, ttl, grace);
      if life.Err? {
        return Err(life.error);
      }
      adapter.Set(key, MakeEntry(value, tags, now, life.value));
      return Ok(());
    }

    method Delete(key: string)
      requires Valid()
      modifies adapter
      ensures Valid()
      ensures adapter.State() == MA.AdapterState(MA.Drop(old(adapter.Contents()), FullKey(settings.prefix, key)), old(adapter.invalidations))
    {
      adapter.Delete(FullKey(settings.prefix, key));
    }

    /** `invalidate`: every tag gets the same `now`; `exact` is not used. */
    method Invalidate(tags: seq<Tag>, exact: bool, now: int)
      requires Valid()
      modifies adapter
      ensures Valid()
      ensures adapter.State() == MA.AdapterState(old(adapter.Contents()), StampAll(old(adapter.invalidations), tags, now))
    {
      StampTags(adapter, tags, now);
    }

    method Clear()
      requires Valid()
      modifies adapter
      ensures Valid()
      ensures adapter.State() == MA.AdapterState(MA.EmptyTable(), map[])
    {
      adapter.Clear();
    }
  }
}
