/** The cache client, in both its asynchronous and its synchronous copy:
    `query` over a query configuration, `mutation`, `invalidate` and `clear`.
    Unlike the primitives, a query's ttl is always parsed (0 means zero
    milliseconds) and its grace is used whenever it is present. */
module ClientEngine {
  import opened Types
  import opened Duration
  import MA = MemoryAdapter
  import opened Engine

  /** What the client's constructor validates and keeps. */
  datatype Settings = Settings(prefix: string, defaultTtl: int, defaultGrace: Option<int>, verifyPercent: real)

  /** The constructor: the default ttl is parsed first, then the default
      grace whenever it is present, and only then is the percentage
      checked. */
  function CreateSettings(prefix: string, defaultTtl: DurationInput, defaultGrace: Option<DurationInput>,
                          verifyPercent: real): (r: Result<Settings>)
    ensures ParseDuration(defaultTtl).Err? ==> r == Err(ParseDuration(defaultTtl).error)
    ensures r.Ok? <==> (ParseDuration(defaultTtl).Ok? &&
                        (defaultGrace.Some? ==> ParseDuration(defaultGrace.value).Ok?) &&
                        0.0 <= verifyPercent <= 1.0)
    ensures r.Ok? ==> (r.value.prefix == prefix && r.value.verifyPercent == verifyPercent &&
                       r.value.defaultTtl == ParseDuration(defaultTtl).value &&
                       r.value.defaultGrace == (if defaultGrace.Some? then Some(ParseDuration(defaultGrace.value).value) else None))
  {
    var ttl := ParseDuration(defaultTtl);
    if ttl.Err? then Err(ttl.error)
    else
      var grace := if defaultGrace.Some? then ParseDuration(defaultGrace.value) else Ok(0);
      if grace.Err? then Err(grace.error)
      else if !(0.0 <= verifyPercent <= 1.0) then Err(VerifyPercentOutOfRange)
      else Ok(Settings(prefix, ttl.value, if defaultGrace.Some? then Some(grace.value) else None, verifyPercent))
  }

  /** A query's durations: the configured ttl is parsed, the configured
      grace when present, else the default grace. */
  function ResolveLifetime(settings: Settings, config: QueryConfig): Result<Lifetime>
  {
    var ttl := ParseDuration(config.ttl);
    if ttl.Err? then Err(ttl.error)
    else if config.grace.None? then Ok(Lifetime(ttl.value, settings.defaultGrace))
    else
      var grace := ParseDuration(config.grace.value);
      if grace.Err? then Err(grace.error)
      else Ok(Lifetime(ttl.value, Some(grace.value)))
  }

  /** The configuration's own durations are the ones used; the default ttl
      never is, and the default grace only when no grace is configured. */
  lemma ConfiguredDurationsAreUsed(settings: Settings, config: QueryConfig)
    requires ParseDuration(config.ttl).Ok?
    requires config.grace.Some? ==> ParseDuration(config.grace.value).Ok?
    ensures ResolveLifetime(settings, config).Ok?
    ensures ResolveLifetime(settings, config).value.ttlMs == ParseDuration(config.ttl).value
    ensures ResolveLifetime(settings, config).value.graceMs ==
      if config.grace.Some? then Some(ParseDuration(config.grace.value).value) else settings.defaultGrace
  {
  }

  /** The cache key of a call: the prefix, the function's name and the
      hash of its arguments. */
  function CacheKey(prefix: string, fnName: string, argsHash: string): string
  {
    prefix + ":" + fnName + ":" + argsHash
  }

  /** A background refresh the client scheduled: the key and the
      configuration to refresh it with. */
  datatype Refresh = Refresh(key: string, config: QueryConfig)

  /** The client object. `inFlight` is the coalescing registry, empty
      between calls; `results` and `errors` are where a leader leaves its
      outcome for waiters; `pending` holds the refreshes not yet run. */
  class Client<V> {
    const adapter: MA.Adapter<V>
    const settings: Settings
    var inFlight: set<string>
    var results: map<string, V>
    var errors: map<string, Error>
    var pending: seq<Refresh>

    ghost predicate Valid()
      reads this, adapter
    {
      adapter.Valid() && inFlight == {} && 0.0 <= settings.verifyPercent <= 1.0
    }

    constructor (adapter: MA.Adapter<V>, settings: Settings)
      requires adapter.Valid() && 0.0 <= settings.verifyPercent <= 1.0
      ensures Valid() && this.adapter == adapter && this.settings == settings
      ensures results == map[] && errors == map[] && pending == []
    {
      this.adapter := adapter;
      this.settings := settings;
      inFlight := {};
      results := map[];
      errors := map[];
      pending := [];
    }

    /** A call of a query function. The leader registers the key, runs the
        fetch closure, leaves its result or its error for waiters, and
        unregisters the key whatever the outcome. */
    method Query(config: QueryConfig, fnName: string, argsHash: string, fetched: Result<V>, now: int)
      returns (r: Result<V>)
      requires Valid()
      modifies this, adapter
      ensures Valid()
      ensures var key := CacheKey(settings.prefix, fnName, argsHash);
        var step := QueryStep(old(adapter.State()), adapter.maxItems, key, config.tags, fetched,
                              ResolveLifetime(settings, config), now);
        r == step.result && adapter.State() == step.state &&
        pending == old(pending) + (if step.refresh then [Refresh(key, config)] else []) &&
        results == (if r.Ok? then old(results)[key := r.value] else old(results)) &&
        errors == (if r.Err? then old(errors)[key := r.error] else old(errors))
    {
      var key := CacheKey(settings.prefix, fnName, argsHash);
      inFlight := inFlight + {key};
      var refresh;
      r, refresh := Fetch(adapter, key, config.tags, fetched, ResolveLifetime(settings, config), now);
      if refresh {
        pending := pending + [Refresh(key, config)];
      }
      if r.Ok? {
        results := results[key := r.value];
      } else {
        errors := errors[key := r.error];
      }
      inFlight := inFlight - {key};
    }

    /** Runs the `i`-th scheduled refresh with what its fetch gives. */
    method RunRefresh(i: nat, fetched: Result<V>, now: int)
      requires Valid() && i < |pending|
      modifies this, adapter
      ensures Valid()
      ensures var task := old(pending[i]);
        adapter.State() == RefreshStep(old(adapter.State()), adapter.maxItems, task.key, task.config.tags, fetched,
                                       ResolveLifetime(settings, task.config), now)
      ensures pending == old(pending[..i] + pending[i + 1..])
      ensures results == old(results) && errors == old(errors)
    {
      var task := pending[i];
      pending := pending[..i] + pending[i + 1..];
      RefreshEntry(adapter, task.key, task.config.tags, fetched, ResolveLifetime(settings, task.config), now);
    }

    /** A call of a mutation function: its tags are invalidated only once it
        has returned, and its result is passed on. */
    method Mutation(outcome: Result<MutationResult<V>>, now: int) returns (r: Result<V>)
      requires Valid()
      modifies adapter
      ensures Valid()
      ensures r == if outcome.Err? then Err(outcome.error) else Ok(outcome.value.result)
      ensures adapter.State() ==
        if outcome.Err? then old(adapter.State())
        else MA.AdapterState(old(adapter.Contents()), StampAll(old(adapter.invalidations), outcome.value.invalidates, now))
    {
      if outcome.Err? {
        return Err(outcome.error);
      }
      Invalidate(outcome.value.invalidates, false, now);
      return Ok(outcome.value.result);
    }

    /** `invalidate`: every tag gets the same `now`; `exact` is not used. */
    method Invalidate(tags: seq<Tag>, exact: bool, now: int)
      requires Valid()
      modifies adapter
      ensures Valid()
      ensures adapter.State() == MA.AdapterState(old(adapter.Contents()), StampAll(old(adapter.invalidations), tags, now))
    {
      StampTags(adapter, tags, now);
    }

    method Clear()
      requires Valid()
      modifies adapter
      ensures Valid()
      ensures adapter.State() == MA.AdapterState(MA.EmptyTable(), map[])
    {
      adapter.Clear();
    }
  }
}
