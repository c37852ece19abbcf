/** Whole behaviours of the cache, each a sequence of steps: a query
    followed by another, an invalidation, a clear or a refresh. They are
    stated over the pure steps that the engines' methods are proved to
    perform, so they hold for the primitives and for both clients. */
module Scenarios {
  import opened Types
  import Tags
  import MA = MemoryAdapter
  import opened Engine
  import P = PrimitivesEngine
  import C = ClientEngine
  import Duration
  import opened Schema

  /** Every recorded invalidation is older than `t`. */
  predicate AllBefore(inv: map<string, int>, t: int)
  {
    forall k | k in inv :: inv[k] < t
  }

  lemma AllBeforeLater(inv: map<string, int>, t: int, later: int)
    requires AllBefore(inv, t) && t <= later
    ensures AllBefore(inv, later)
  {
  }

  /** A capacity under which a set is always seen by the next get. */
  predicate KeepsInserts(maxItems: Option<int>)
  {
    maxItems.None? || maxItems.value >= 0
  }

  /** The state after a miss stores `value`: well formed, with the new
      entry under the key and the invalidations unchanged. */
  lemma MissStores<V>(s: MA.AdapterState<V>, maxItems: Option<int>, key: string, tags: seq<Tag>,
                      value: V, life: Lifetime, now: int)
    requires MA.WellFormed(s.table) && KeepsInserts(maxItems) && key !in s.table.entries
    ensures QueryStep(s, maxItems, key, tags, Ok(value), Ok(life), now).result == Ok(value)
    ensures MA.WellFormed(QueryStep(s, maxItems, key, tags, Ok(value), Ok(life), now).state.table)
    ensures QueryStep(s, maxItems, key, tags, Ok(value), Ok(life), now).state.invalidations == s.invalidations
    ensures var t := QueryStep(s, maxItems, key, tags, Ok(value), Ok(life), now).state.table;
      key in t.entries && t.entries[key] == MakeEntry(value, tags, now, life)
  {
    MissFetchesAndStores(s, maxItems, key, tags, value, life, now);
    MA.GetMissing(s.table, key);
    MA.PutWellFormed(s.table, key, MakeEntry(value, tags, now, life), maxItems);
  }

  /** Two queries of the same key in a row: the first fetches and stores,
      the second answers the stored value whatever its own fetch would
      give, as long as it comes within the ttl. */
  lemma SecondQueryServesFirstFetch<V>(s: MA.AdapterState<V>, maxItems: Option<int>, key: string, tags: seq<Tag>,
                                       v1: V, life: Lifetime, fetched2: Result<V>, life2: Result<Lifetime>,
                                       t1: int, t2: int)
    requires MA.WellFormed(s.table) && KeepsInserts(maxItems) && key !in s.table.entries
    requires AllBefore(s.invalidations, t1) && t1 <= t2 <= t1 + life.ttlMs
    ensures QueryStep(s, maxItems, key, tags, Ok(v1), Ok(life), t1).result == Ok(v1)
    ensures var first := QueryStep(s, maxItems, key, tags, Ok(v1), Ok(life), t1).state;
      QueryStep(first, maxItems, key, tags, fetched2, life2, t2).result == Ok(v1) &&
      !QueryStep(first, maxItems, key, tags, fetched2, life2, t2).refresh
  {
    MissStores(s, maxItems, key, tags, v1, life, t1);
    var first := QueryStep(s, maxItems, key, tags, Ok(v1), Ok(life), t1).state;
    var entry := MakeEntry(v1, tags, t1, life);
    OlderInvalidationsDoNotMatter(first.invalidations, entry);
    EntryTimeline(v1, tags, t1, life, t2);
    FreshHitServesCache(first, maxItems, key, tags, fetched2, life2, t2);
  }

  /** Invalidating a tag, or any non-empty ancestor of it, after an entry
      was stored makes the next query fetch again and store the new value,
      when the entry has no grace window. */
  lemma AncestorInvalidationRefetches<V>(s: MA.AdapterState<V>, maxItems: Option<int>, key: string,
                                         tag: Tag, ancestor: Tag, v1: V, v2: V, life: Lifetime,
                                         t1: int, t2: int, t3: int)
    requires MA.WellFormed(s.table) && KeepsInserts(maxItems) && key !in s.table.entries
    requires |ancestor| >= 1 && Tags.IsTagPrefix(ancestor, tag)
    requires life.graceMs.None? && t1 <= t2 && t2 <= t3
    ensures var first := QueryStep(s, maxItems, key, [tag], Ok(v1), Ok(life), t1).state;
      var after := MA.AdapterState(first.table, StampAll(first.invalidations, [ancestor], t2));
      QueryStep(after, maxItems, key, [tag], Ok(v2), Ok(life), t3).result == Ok(v2) &&
      MA.Lookup(QueryStep(after, maxItems, key, [tag], Ok(v2), Ok(life), t3).state.table, key) ==
        Some(MakeEntry(v2, [tag], t3, life))
  {
    MissStores(s, maxItems, key, [tag], v1, life, t1);
    var first := QueryStep(s, maxItems, key, [tag], Ok(v1), Ok(life), t1).state;
    var entry := MakeEntry(v1, [tag], t1, life);
    assert StampAll(first.invalidations, [ancestor], t2) == first.invalidations[MA.InvalidationKey(ancestor) := t2] by {
      assert [ancestor][..0] == [];
    }
    InvalidatingAncestorMakesStale(first.invalidations, entry, 0, ancestor, t2);
    var after := MA.AdapterState(first.table, StampAll(first.invalidations, [ancestor], t2));
    MissFetchesAndStores(after, maxItems, key, [tag], v2, life, t3);
  }

  /** The user's own key: invalidating `("user",)` refetches a query tagged
      `("user", id)`. */
  lemma UserInvalidationRefetches<V>(s: MA.AdapterState<V>, maxItems: Option<int>, key: string, id: string,
                                     v1: V, v2: V, life: Lifetime, t1: int, t2: int, t3: int)
    requires MA.WellFormed(s.table) && KeepsInserts(maxItems) && key !in s.table.entries
    requires life.graceMs.None? && t1 <= t2 && t2 <= t3
    ensures var first := QueryStep(s, maxItems, key, [["user", id]], Ok(v1), Ok(life), t1).state;
      var after := MA.AdapterState(first.table, StampAll(first.invalidations, [["user"]], t2));
      QueryStep(after, maxItems, key, [["user", id]], Ok(v2), Ok(life), t3).result == Ok(v2)
  {
    assert ["user", id][..1] == ["user"];
    AncestorInvalidationRefetches(s, maxItems, key, ["user", id], ["user"], v1, v2, life, t1, t2, t3);
  }

  /** The `exact` flag has no effect: stamping `("user",)` makes an entry
      tagged `("user", id)` stale, so an exact invalidation of `("user",)`
      still reaches its children, although the clients' docstrings say
      that only entries with the exact tag are invalidated. */
  lemma ExactInvalidationReachesChildren<V>(inv: map<string, int>, entry: CacheEntry<V>, id: string, now: int)
    requires entry.tags == [["user", id]] && entry.createdAt <= now
    ensures Stale(StampAll(inv, [["user"]], now), entry)
  {
    assert ["user", id][..1] == ["user"];
    assert [["user"]][..0] == [];
    assert StampAll(inv, [["user"]], now) == inv[MA.InvalidationKey(["user"]) := now];
    InvalidatingAncestorMakesStale(inv, entry, 0, ["user"], now);
  }

  /** The same through the client: `invalidate([("user",)], exact=True)`
      leaves an entry tagged `("user", "123")` stale. */
  method ClientExactInvalidate<V>(c: C.Client<V>, entry: CacheEntry<V>, now: int)
    requires c.Valid() && entry.tags == [["user", "123"]] && entry.createdAt <= now
    modifies c.adapter
    ensures c.Valid() && Stale(c.adapter.invalidations, entry)
  {
    c.Invalidate([["user"]], true, now);
    ExactInvalidationReachesChildren(old(c.adapter.invalidations), entry, "123", now);
  }

  /** The keys `_is_stale` looks up for a `("post", "456")` entry are
      exactly `"post"` and `"post:456"`: the tag itself and its one
      non-empty proper prefix, never the empty prefix. */
  lemma PostKeys()
    ensures !Checked(["post", "456"], 0)
    ensures (set n | 0 <= n <= 2 && Checked(["post", "456"], n) :: MA.InvalidationKey(["post", "456"][..n]))
      == {"post", "post:456"}
  {
    var tag := ["post", "456"];
    assert tag[..1] == ["post"] && tag[..2] == tag;
    assert MA.InvalidationKey(tag) == "post" + ":" + "456";
    assert "post" + ":" + "456" == "post:456";
    var keys := set n | 0 <= n <= 2 && Checked(tag, n) :: MA.InvalidationKey(tag[..n]);
    assert MA.InvalidationKey(tag[..1]) in keys && MA.InvalidationKey(tag[..2]) in keys;
  }

  /** Invalidating `("user", "123")` leaves an entry tagged
      `("post", "456")` fresh: its next query still answers the stored
      value. */
  lemma InvalidationIsolation<V>(s: MA.AdapterState<V>, maxItems: Option<int>, key: string,
                                 v1: V, fetched2: Result<V>, life: Lifetime, t1: int, t2: int, t3: int)
    requires MA.WellFormed(s.table) && KeepsInserts(maxItems) && key !in s.table.entries
    requires AllBefore(s.invalidations, t1) && t1 <= t2 && t2 <= t3 <= t1 + life.ttlMs
    ensures var first := QueryStep(s, maxItems, key, [["post", "456"]], Ok(v1), Ok(life), t1).state;
      var after := MA.AdapterState(first.table, StampAll(first.invalidations, [["user", "123"]], t2));
      QueryStep(after, maxItems, key, [["post", "456"]], fetched2, Ok(life), t3).result == Ok(v1)
  {
    var tags := [["post", "456"]];
    MissStores(s, maxItems, key, tags, v1, life, t1);
    var first := QueryStep(s, maxItems, key, tags, Ok(v1), Ok(life), t1).state;
    var entry := MakeEntry(v1, tags, t1, life);
    var userKey := MA.InvalidationKey(["user", "123"]);
    assert userKey == "user:123" by {
      assert ["user", "123"][1..] == ["123"];
    }
    assert [["user", "123"]][..0] == [];
    assert StampAll(first.invalidations, [["user", "123"]], t2) == first.invalidations[userKey := t2];
    PostKeys();
    assert forall i, n | 0 <= i < |entry.tags| && 0 <= n <= |entry.tags[i]| ::
      Checked(entry.tags[i], n) ==> MA.InvalidationKey(entry.tags[i][..n]) != userKey by {
      forall i, n | 0 <= i < |entry.tags| && 0 <= n <= |entry.tags[i]| && Checked(entry.tags[i], n)
        ensures MA.InvalidationKey(entry.tags[i][..n]) != userKey
      {
        assert entry.tags[i] == ["post", "456"];
        assert MA.InvalidationKey(entry.tags[i][..n]) in {"post", "post:456"};
      }
    }
    UnrelatedStampKeepsStaleness(first.invalidations, entry, userKey, t2);
    OlderInvalidationsDoNotMatter(first.invalidations, entry);
    var after := MA.AdapterState(first.table, first.invalidations[userKey := t2]);
    EntryTimeline(v1, tags, t1, life, t3);
    FreshHitServesCache(after, maxItems, key, tags, fetched2, Ok(life), t3);
  }

  /** After `clear` every query misses: it answers what its fetch gives,
      or the duration error when the fetch succeeds but the durations do
      not parse. */
  lemma ClearedCacheMisses<V>(maxItems: Option<int>, key: string, tags: seq<Tag>,
                              fetched: Result<V>, life: Result<Lifetime>, now: int)
    ensures Decide(MA.Lookup(MA.EmptyTable<CacheEntry<V>>(), key), map[], now) == FetchAndStore
    ensures QueryStep(MA.AdapterState(MA.EmptyTable(), map[]), maxItems, key, tags, fetched, life, now).result ==
      if fetched.Ok? && life.Err? then Err(life.error) else fetched
  {
  }

  /** An entry without a grace window is fetched again once its ttl has
      passed. */
  lemma ExpiredEntryRefetches<V>(s: MA.AdapterState<V>, maxItems: Option<int>, key: string, tags: seq<Tag>,
                                 v1: V, v2: V, life: Lifetime, t1: int, t2: int)
    requires MA.WellFormed(s.table) && KeepsInserts(maxItems) && key !in s.table.entries
    requires life.graceMs.None? || life.graceMs == Some(0)
    requires t2 > t1 + life.ttlMs
    ensures var first := QueryStep(s, maxItems, key, tags, Ok(v1), Ok(life), t1).state;
      QueryStep(first, maxItems, key, tags, Ok(v2), Ok(life), t2).result == Ok(v2) &&
      MA.Lookup(QueryStep(first, maxItems, key, tags, Ok(v2), Ok(life), t2).state.table, key) ==
        Some(MakeEntry(v2, tags, t2, life))
  {
    MissStores(s, maxItems, key, tags, v1, life, t1);
    var first := QueryStep(s, maxItems, key, tags, Ok(v1), Ok(life), t1).state;
    EntryTimeline(v1, tags, t1, life, t2);
    MissFetchesAndStores(first, maxItems, key, tags, v2, life, t2);
  }

  /** An entry stored at `created` with no later invalidation is served
      until its ttl and its grace have both passed. */
  lemma StoredEntryIsServed<V>(s: MA.AdapterState<V>, maxItems: Option<int>, key: string, tags: seq<Tag>,
                               value: V, life: Lifetime, created: int, fetched: Result<V>, now: int)
    requires MA.WellFormed(s.table) && key in s.table.entries
    requires s.table.entries[key] == MakeEntry(value, tags, created, life)
    requires AllBefore(s.invalidations, created)
    requires created <= now <= created + life.ttlMs + (if life.graceMs.Some? then life.graceMs.value else 0)
    requires now > created + life.ttlMs ==> life.graceMs.Some? && life.graceMs.value != 0
    ensures QueryStep(s, maxItems, key, tags, fetched, Ok(life), now).result == Ok(value)
  {
    var entry := MakeEntry(value, tags, created, life);
    OlderInvalidationsDoNotMatter(s.invalidations, entry);
    EntryTimeline(value, tags, created, life, now);
    if IsExpired(entry, now) {
      GraceServesStale(s, maxItems, key, tags, fetched, Ok(life), now);
    } else {
      FreshHitServesCache(s, maxItems, key, tags, fetched, Ok(life), now);
    }
  }

  /** A successful refresh leaves a well-formed table holding the new entry,
      and the invalidations as they were. */
  lemma RefreshStores<V>(s: MA.AdapterState<V>, maxItems: Option<int>, key: string, tags: seq<Tag>,
                         value: V, life: Lifetime, now: int)
    requires MA.WellFormed(s.table) && KeepsInserts(maxItems)
    ensures var r := RefreshStep(s, maxItems, key, tags, Ok(value), Ok(life), now);
      MA.WellFormed(r.table) && key in r.table.entries &&
      r.table.entries[key] == MakeEntry(value, tags, now, life) && r.invalidations == s.invalidations
  {
    MA.PutThenLookup(s.table, key, MakeEntry(value, tags, now, life), maxItems);
    MA.PutWellFormed(s.table, key, MakeEntry(value, tags, now, life), maxItems);
  }

  /** With a grace window, the query after expiry answers the old value and
      schedules a refresh; once the refresh has run, a read within the new
      entry's ttl and grace answers the refreshed value. */
  lemma GraceServesOldThenRefreshed<V>(s: MA.AdapterState<V>, maxItems: Option<int>, key: string, tags: seq<Tag>,
                                       v1: V, v2: V, fetched2: Result<V>, fetched3: Result<V>, life: Lifetime,
                                       t1: int, t2: int, tr: int, t3: int)
    requires MA.WellFormed(s.table) && KeepsInserts(maxItems) && key !in s.table.entries
    requires AllBefore(s.invalidations, t1)
    requires life.graceMs.Some? && life.graceMs.value != 0
    requires t1 <= t2 && t1 + life.ttlMs < t2 <= t1 + life.ttlMs + life.graceMs.value
    requires t2 <= tr <= t3 <= tr + life.ttlMs + life.graceMs.value
    ensures var first := QueryStep(s, maxItems, key, tags, Ok(v1), Ok(life), t1).state;
      var second := QueryStep(first, maxItems, key, tags, fetched2, Ok(life), t2);
      var refreshed := RefreshStep(second.state, maxItems, key, tags, Ok(v2), Ok(life), tr);
      second.result == Ok(v1) && second.refresh &&
      QueryStep(refreshed, maxItems, key, tags, fetched3, Ok(life), t3).result == Ok(v2)
  {
    MissStores(s, maxItems, key, tags, v1, life, t1);
    var first := QueryStep(s, maxItems, key, tags, Ok(v1), Ok(life), t1).state;
    EntryTimeline(v1, tags, t1, life, t2);
    GraceServesStale(first, maxItems, key, tags, fetched2, Ok(life), t2);
    var second := QueryStep(first, maxItems, key, tags, fetched2, Ok(life), t2);
    MA.GetPresent(first.table, key);
    assert second.state == MA.AdapterState(MA.AfterGet(first.table, key), first.invalidations);
    RefreshStores(second.state, maxItems, key, tags, v2, life, tr);
    var refreshed := RefreshStep(second.state, maxItems, key, tags, Ok(v2), Ok(life), tr);
    assert refreshed.invalidations == s.invalidations;
    AllBeforeLater(s.invalidations, t1, tr);
    assert t3 <= tr + life.ttlMs + (if life.graceMs.Some? then life.graceMs.value else 0);
    StoredEntryIsServed(refreshed, maxItems, key, tags, v2, life, tr, fetched3, t3);
  }

  /** The instance chain of some wild fields and ids is a prefix of every
      longer chain that extends it. */
  lemma {:induction false} InterleaveAppend(fields: seq<Field>, more: seq<Field>, ids: seq<string>, moreIds: seq<string>)
    requires |ids| == |fields| && |moreIds| == |more|
    ensures Interleave(fields + more, ids + moreIds) == Interleave(fields, ids) + Interleave(more, moreIds)
  {
    if more != [] {
      var f := fields + more;
      var i := ids + moreIds;
      assert f[..|f| - 1] == fields + more[..|more| - 1];
      assert i[..|i| - 1] == ids + moreIds[..|moreIds| - 1];
      InterleaveAppend(fields, more[..|more| - 1], ids, moreIds[..|moreIds| - 1]);
    } else {
      assert fields + more == fields && ids + moreIds == ids;
    }
  }

  lemma {:induction false} InterleaveLength(fields: seq<Field>, ids: seq<string>)
    requires |ids| == |fields|
    ensures |Interleave(fields, ids)| == 2 * |fields|
  {
    if fields != [] {
      InterleaveLength(fields[..|fields| - 1], ids[..|ids| - 1]);
    }
  }

  /** Hierarchical invalidation through the schema: invalidating the
      instance `t.F0(id0)...Fk(idk)` makes stale every entry whose tag was
      built from a spec that extends that chain, such as `posts("p1")`
      reaching the entries of both `get_post("p1")` and
      `get_comment("p1", "c1")`. Whether a stale entry is then refetched
      or served from grace is `ChainInvalidationRefetches`. */
  lemma ChainInvalidationReachesDescendants<V>(fields: seq<Field>, more: seq<Field>, ids: seq<string>, moreIds: seq<string>,
                                               hints: Hints, schemaType: Option<string>,
                                               inv: map<string, int>, entry: CacheEntry<V>, now: int)
    requires |fields| >= 1 && |ids| == |fields| && |moreIds| == |more|
    requires forall i | 0 <= i < |fields + more| :: (fields + more)[i].WildField? && Identifier((fields + more)[i].name)
    requires ClassChain(fields + more, hints).Ok?
    requires FillPath(ClassChain(fields + more, hints).value.segments, ids + moreIds).Ok?
    requires entry.tags == [FillPath(ClassChain(fields + more, hints).value.segments, ids + moreIds).value]
    requires now >= entry.createdAt
    ensures forall i | 0 <= i < |fields| :: fields[i].WildField?
    ensures Stale(StampAll(inv, [InstanceChain(SchemaInstance([], schemaType), fields, ids).path], now), entry)
  {
    var root := SchemaInstance([], schemaType);
    forall i | 0 <= i < |fields| ensures fields[i].WildField? && Identifier(fields[i].name) {
      assert (fields + more)[i] == fields[i];
    }
    ClassChainFillsInstancePath(fields + more, ids + moreIds, hints, root);
    InstanceChainPath(root, fields, ids);
    InterleaveAppend(fields, more, ids, moreIds);
    InterleaveLength(fields, ids);
    var p := InstanceChain(root, fields, ids).path;
    assert p == Interleave(fields, ids);
    var tag := entry.tags[0];
    assert tag == p + Interleave(more, moreIds);
    assert tag[..|p|] == p;
    assert [p][..0] == [];
    assert StampAll(inv, [p], now) == inv[MA.InvalidationKey(p) := now];
    InvalidatingAncestorMakesStale(inv, entry, 0, p, now);
  }

  /** The same invalidation, seen by the next query: an entry stored under
      `key` with no grace window, whose tag was built from a spec extending
      the invalidated chain, is fetched again and replaced by the new
      value, as `get_post("p1")` and `get_comment("p1", "c1")` both are
      after `invalidate(t.posts("p1"))`. */
  lemma ChainInvalidationRefetches<V>(fields: seq<Field>, more: seq<Field>, ids: seq<string>, moreIds: seq<string>,
                                      hints: Hints, schemaType: Option<string>,
                                      s: MA.AdapterState<V>, maxItems: Option<int>, key: string,
                                      v2: V, life: Lifetime, now: int, later: int)
    requires |fields| >= 1 && |ids| == |fields| && |moreIds| == |more|
    requires forall i | 0 <= i < |fields + more| :: (fields + more)[i].WildField? && Identifier((fields + more)[i].name)
    requires ClassChain(fields + more, hints).Ok?
    requires FillPath(ClassChain(fields + more, hints).value.segments, ids + moreIds).Ok?
    requires MA.WellFormed(s.table) && KeepsInserts(maxItems) && key in s.table.entries
    requires s.table.entries[key].tags == [FillPath(ClassChain(fields + more, hints).value.segments, ids + moreIds).value]
    requires s.table.entries[key].graceUntil.None?
    requires s.table.entries[key].createdAt <= now <= later
    ensures forall i | 0 <= i < |fields| :: fields[i].WildField?
    ensures var after := MA.AdapterState(s.table,
              StampAll(s.invalidations, [InstanceChain(SchemaInstance([], schemaType), fields, ids).path], now));
      var tags := s.table.entries[key].tags;
      QueryStep(after, maxItems, key, tags, Ok(v2), Ok(life), later).result == Ok(v2) &&
      MA.Lookup(QueryStep(after, maxItems, key, tags, Ok(v2), Ok(life), later).state.table, key) ==
        Some(MakeEntry(v2, tags, later, life))
  {
    var entry := s.table.entries[key];
    ChainInvalidationReachesDescendants(fields, more, ids, moreIds, hints, schemaType, s.invalidations, entry, now);
    var after := MA.AdapterState(s.table,
      StampAll(s.invalidations, [InstanceChain(SchemaInstance([], schemaType), fields, ids).path], now));
    MissFetchesAndStores(after, maxItems, key, entry.tags, v2, life, later);
  }

  // ---------------------------------------------------------------------------
  // The in-memory adapter's capacity
  // ---------------------------------------------------------------------------

  /** Two distinct keys stored in a table with room for two: both are
      kept, the first being the least recently used. */
  lemma StoreTwo<V>(k1: string, k2: string, e: V)
    requires k1 != k2
    ensures MA.Put(MA.Put(MA.EmptyTable(), k1, e, Some(2)), k2, e, Some(2)) == MA.Table([k1, k2], map[k1 := e, k2 := e])
  {
    assert MA.Touch([], k1) == [k1];
    assert |map[k1 := e]| == 1;
    assert MA.Put(MA.EmptyTable(), k1, e, Some(2)) == MA.Table([k1], map[k1 := e]);
    assert MA.Remove([k1], k2) == [k1];
    assert map[k1 := e][k2 := e].Keys == {k1, k2};
    assert |map[k1 := e][k2 := e]| == 2;
  }

  /** With room for two, storing three keys evicts the first. */
  lemma LruEvictsOldest<V>(k1: string, k2: string, k3: string, e: V)
    requires k1 != k2 && k1 != k3 && k2 != k3
    ensures var t := MA.Put(MA.Put(MA.Put(MA.EmptyTable(), k1, e, Some(2)), k2, e, Some(2)), k3, e, Some(2));
      MA.Lookup(t, k1) == None && MA.Lookup(t, k2) == Some(e) && MA.Lookup(t, k3) == Some(e)
  {
    StoreTwo(k1, k2, e);
    StoreThird(k1, k2, k3, e);
  }

  /** Reading the older of two keys makes the other the least recently
      used. */
  lemma GetOlderOfTwo<V>(k1: string, k2: string, e: V)
    requires k1 != k2
    ensures MA.AfterGet(MA.Table([k1, k2], map[k1 := e, k2 := e]), k1) == MA.Table([k2, k1], map[k1 := e, k2 := e])
  {
    assert MA.Remove([k1, k2], k1) == [k2];
  }

  /** A third key stored in a full table of two evicts its first key. */
  lemma StoreThird<V>(k1: string, k2: string, k3: string, e: V)
    requires k1 != k2 && k1 != k3 && k2 != k3
    ensures MA.Put(MA.Table([k1, k2], map[k1 := e, k2 := e]), k3, e, Some(2)) == MA.Table([k2, k3], map[k2 := e, k3 := e])
  {
    var m := map[k1 := e, k2 := e, k3 := e];
    assert m.Keys == {k1, k2, k3};
    assert |m| == 3;
    assert MA.Remove([k1, k2], k3) == [k1, k2];
    assert MA.Touch([k1, k2], k3) == [k1, k2, k3];
    assert m - {k1} == map[k2 := e, k3 := e];
  }

  /** A get refreshes recency: storing two keys, reading the first and then
      storing a third evicts the second. */
  lemma LruGetProtectsKey<V>(k1: string, k2: string, k3: string, e: V)
    requires k1 != k2 && k1 != k3 && k2 != k3
    ensures var t := MA.Put(MA.AfterGet(MA.Put(MA.Put(MA.EmptyTable(), k1, e, Some(2)), k2, e, Some(2)), k1),
                            k3, e, Some(2));
      MA.Lookup(t, k1) == Some(e) && MA.Lookup(t, k2) == None && MA.Lookup(t, k3) == Some(e)
  {
    StoreTwo(k1, k2, e);
    GetOlderOfTwo(k1, k2, e);
    assert map[k1 := e, k2 := e] == map[k2 := e, k1 := e];
    StoreThird(k2, k1, k3, e);
  }

  /** The test's own keys. */
  lemma LruEvictionExample<V>(e: V)
    ensures var t := MA.Put(MA.Put(MA.Put(MA.EmptyTable(), "key1", e, Some(2)), "key2", e, Some(2)), "key3", e, Some(2));
      MA.Lookup(t, "key1") == None && MA.Lookup(t, "key2") == Some(e) && MA.Lookup(t, "key3") == Some(e)
  {
    assert "key1"[3] != "key2"[3] && "key1"[3] != "key3"[3] && "key2"[3] != "key3"[3];
    LruEvictsOldest("key1", "key2", "key3", e);
  }

  // ---------------------------------------------------------------------------
  // Where the engine copies differ
  // ---------------------------------------------------------------------------

  /** A zero ttl means the default ttl to the primitives but zero
      milliseconds to the clients, and a zero grace means the default grace
      to the primitives but no grace window to the clients. */
  lemma ZeroDurationsDiffer(ps: P.Settings, cs: C.Settings, tags: seq<Tag>)
    ensures P.ResolveLifetime(ps, Some(Millis(0)), Some(Millis(0))) == Ok(Lifetime(ps.defaultTtl, ps.defaultGrace))
    ensures C.ResolveLifetime(cs, QueryConfig(tags, Millis(0), Some(Millis(0)))) == Ok(Lifetime(0, Some(0)))
    ensures MakeEntry(0, tags, 5, Lifetime(0, Some(0))).graceUntil.None?
  {
    P.FalsyDurationsUseDefaults(ps, Some(Millis(0)), Some(Millis(0)));
  }

  /** An empty default grace is skipped by the primitives and refused by
      the clients. */
  lemma EmptyDefaultGraceDiffers()
    ensures P.CreateSettings("t87s", Text("30s"), Some(Text("")), 0.1).Ok?
    ensures C.CreateSettings("t87s", Text("30s"), Some(Text("")), 0.1) == Err(InvalidDuration(""))
  {
    Duration.KnownDurations();
    Duration.RejectedDurations();
  }

  /** The primitives check the percentage before the durations, the
      clients after. */
  lemma ValidationOrderDiffers()
    ensures P.CreateSettings("t87s", Text("10x"), None, 2.0) == Err(VerifyPercentOutOfRange)
    ensures C.CreateSettings("t87s", Text("10x"), None, 2.0) == Err(InvalidDuration("10x"))
  {
    Duration.RejectedDurations();
  }
}
