/** The in-memory storage adapter: an entry table kept in least- to
    most-recently-used order with an optional capacity, and a table of
    per-tag invalidation timestamps. The pure functions describe each
    operation; the class `Adapter` performs them step by step on its fields. */
module MemoryAdapter {
  import opened Types
  import Tags

  /** The adapter's own tag key: the parts joined by `:` without escaping. */
  function InvalidationKey(tag: Tag): string
  {
    Tags.Join(tag, ":")
  }

  /** Because the key is not escaped, a one-part tag holding a colon and the
      two-part tag it spells share one invalidation record. */
  lemma InvalidationKeysCollide()
    ensures ["a:b"] != ["a", "b"]
    ensures InvalidationKey(["a:b"]) == InvalidationKey(["a", "b"])
  {
    assert ["a:b"][0] != ["a", "b"][0];
    assert InvalidationKey(["a", "b"]) == "a" + ":" + "b";
  }

  // ---------------------------------------------------------------------------
  // Recency order
  // ---------------------------------------------------------------------------

  predicate NoDup(s: seq<string>)
  {
    forall i, j :: 0 <= i < j < |s| ==> s[i] != s[j]
  }

  /** `s` with `k` taken out. */
  function Remove(s: seq<string>, k: string): (r: seq<string>)
    ensures forall x :: x in r <==> x in s && x != k
    ensures k !in s ==> r == s
  {
    if s == [] then [] else (if s[0] == k then [] else [s[0]]) + Remove(s[1..], k)
  }

  lemma {:induction false} RemoveKeepsNoDup(s: seq<string>, k: string)
    requires NoDup(s)
    ensures NoDup(Remove(s, k))
    ensures |Remove(s, k)| == if k in s then |s| - 1 else |s|
  {
    if s != [] {
      assert NoDup(s[1..]) by {
        forall i, j | 0 <= i < j < |s[1..]| ensures s[1..][i] != s[1..][j] {
          assert s[1..][i] == s[i + 1] && s[1..][j] == s[j + 1];
        }
      }
      RemoveKeepsNoDup(s[1..], k);
      assert s[0] !in s[1..] by {
        forall j | 0 <= j < |s[1..]| ensures s[1..][j] != s[0] {
          assert s[1..][j] == s[j + 1];
        }
      }
      if s[0] == k {
        assert k !in s[1..];
      } else {
        var r := [s[0]] + Remove(s[1..], k);
        forall i, j | 0 <= i < j < |r| ensures r[i] != r[j] {
          if i == 0 {
            assert r[j] in Remove(s[1..], k);
          }
        }
      }
    }
  }

  /** `move_to_end`: `k` becomes the most recently used key. */
  function Touch(order: seq<string>, k: string): seq<string>
  {
    Remove(order, k) + [k]
  }

  lemma TouchKeepsNoDup(order: seq<string>, k: string)
    requires NoDup(order)
    ensures NoDup(Touch(order, k))
    ensures |Touch(order, k)| == if k in order then |order| else |order| + 1
    ensures forall x :: x in Touch(order, k) <==> x in order || x == k
  {
    RemoveKeepsNoDup(order, k);
    var r := Touch(order, k);
    forall i, j | 0 <= i < j < |r| ensures r[i] != r[j] {
      if j == |r| - 1 {
        assert r[i] in Remove(order, k);
      }
    }
  }

  // ---------------------------------------------------------------------------
  // The entry table, as a value
  // ---------------------------------------------------------------------------

  /** An ordered dictionary: keys from least to most recently used, and the
      entry of each key. */
  datatype Table<V> = Table(order: seq<string>, entries: map<string, V>)

  /** Every key appears once in the order, and the order lists exactly the
      stored keys. */
  ghost predicate WellFormed<V>(t: Table<V>)
  {
    NoDup(t.order) && |t.order| == |t.entries| && (forall k :: k in t.order <==> k in t.entries)
  }

  function EmptyTable<V>(): (t: Table<V>)
    ensures WellFormed(t) && |t.entries| == 0
  {
    Table([], map[])
  }

  /** A capacity is enforced when it is present and non-zero. */
  predicate Bounded(maxItems: Option<int>)
  {
    maxItems.Some? && maxItems.value != 0
  }

  /** `get`'s answer. */
  function Lookup<V>(t: Table<V>, k: string): Option<V>
  {
    if k in t.entries then Some(t.entries[k]) else None
  }

  /** The table after `get`: a present key is touched, a missing one changes
      nothing. */
  function AfterGet<V>(t: Table<V>, k: string): Table<V>
  {
    if k in t.entries then Table(Touch(t.order, k), t.entries) else t
  }

  /** `set`: store, touch, and pop the least recently used key when the
      capacity is enforced and exceeded. */
  function Put<V>(t: Table<V>, k: string, v: V, maxItems: Option<int>): Table<V>
  {
    var stored := Table(Touch(t.order, k), t.entries[k := v]);
    if Bounded(maxItems) && |stored.entries| > maxItems.value then
      Table(stored.order[1..], stored.entries - {stored.order[0]})
    else stored
  }

  /** `delete`: drop the key if present. */
  function Drop<V>(t: Table<V>, k: string): Table<V>
  {
    Table(Remove(t.order, k), t.entries - {k})
  }

  /** The entries a set would hold before any eviction. */
  lemma StoredWellFormed<V>(t: Table<V>, k: string, v: V)
    requires WellFormed(t)
    ensures WellFormed(Table(Touch(t.order, k), t.entries[k := v]))
  {
    TouchKeepsNoDup(t.order, k);
  }

  /** Every operation keeps the table well formed. */
  lemma PutWellFormed<V>(t: Table<V>, k: string, v: V, maxItems: Option<int>)
    requires WellFormed(t)
    ensures WellFormed(Put(t, k, v, maxItems))
  {
    var stored := Table(Touch(t.order, k), t.entries[k := v]);
    StoredWellFormed(t, k, v);
    if Bounded(maxItems) && |stored.entries| > maxItems.value {
      var o := stored.order;
      assert o == [o[0]] + o[1..];
      forall x ensures x in o[1..] <==> x in stored.entries - {o[0]} {
        if x in o[1..] {
          var j :| 0 <= j < |o[1..]| && o[1..][j] == x;
          assert o[j + 1] == x;
        }
      }
      assert NoDup(o[1..]) by {
        forall i, j | 0 <= i < j < |o[1..]| ensures o[1..][i] != o[1..][j] {
          assert o[1..][i] == o[i + 1] && o[1..][j] == o[j + 1];
        }
      }
    }
  }

  lemma DeleteWellFormed<V>(t: Table<V>, k: string)
    requires WellFormed(t)
    ensures WellFormed(Drop(t, k))
  {
    RemoveKeepsNoDup(t.order, k);
  }

  /** `get` on a missing key answers None and leaves the table as it was. */
  lemma GetMissing<V>(t: Table<V>, k: string)
    requires k !in t.entries
    ensures Lookup(t, k) == None && AfterGet(t, k) == t
  {
  }

  /** `get` on a present key answers its entry, keeps every entry, and makes
      the key the most recently used. */
  lemma GetPresent<V>(t: Table<V>, k: string)
    requires WellFormed(t) && k in t.entries
    ensures Lookup(t, k) == Some(t.entries[k])
    ensures AfterGet(t, k).entries == t.entries
    ensures WellFormed(AfterGet(t, k))
    ensures AfterGet(t, k).order[|AfterGet(t, k).order| - 1] == k
  {
    StoredWellFormed(t, k, t.entries[k]);
    assert t.entries[k := t.entries[k]] == t.entries;
  }

  /** Without an enforced capacity a set stores the entry, keeps every
      other entry, and makes the key the most recently used. */
  lemma PutUnbounded<V>(t: Table<V>, k: string, v: V, maxItems: Option<int>)
    requires !Bounded(maxItems)
    ensures Put(t, k, v, maxItems).entries == t.entries[k := v]
    ensures Put(t, k, v, maxItems).order[|Put(t, k, v, maxItems).order| - 1] == k
  {
  }

  /** With a positive capacity, a set that does not overflow keeps every
      entry, and one that overflows evicts exactly the least recently used
      key, which is never the key just written. */
  lemma PutBounded<V>(t: Table<V>, k: string, v: V, max: int)
    requires WellFormed(t) && max > 0 && |t.entries| <= max
    ensures |t.entries[k := v]| <= max ==> Put(t, k, v, Some(max)).entries == t.entries[k := v]
    ensures |t.entries[k := v]| > max ==>
      k !in t.entries && |t.entries| == max &&
      Put(t, k, v, Some(max)).entries == t.entries[k := v] - {t.order[0]} &&
      t.order[0] != k
  {
    StoredWellFormed(t, k, v);
    if |t.entries[k := v]| > max {
      assert k !in t.entries;
      assert t.order != [] && Touch(t.order, k)[0] == t.order[0];
    }
  }

  /** With a positive capacity the table never holds more than it. */
  lemma PutRespectsCapacity<V>(t: Table<V>, k: string, v: V, max: int)
    requires WellFormed(t) && max > 0 && |t.entries| <= max
    ensures |Put(t, k, v, Some(max)).entries| <= max
  {
    PutBounded(t, k, v, max);
  }

  /** A set is seen by the next get, unless the capacity is negative. */
  lemma PutThenLookup<V>(t: Table<V>, k: string, v: V, maxItems: Option<int>)
    requires WellFormed(t) && (maxItems.None? || maxItems.value >= 0)
    ensures Lookup(Put(t, k, v, maxItems), k) == Some(v)
  {
    StoredWellFormed(t, k, v);
    var stored := Table(Touch(t.order, k), t.entries[k := v]);
    if Bounded(maxItems) && |stored.entries| > maxItems.value {
      assert |stored.order| >= 2;
      assert stored.order[|stored.order| - 1] == k;
    }
  }

  /** A negative capacity evicts the key a set has just written into an
      empty table. */
  lemma NegativeCapacityDropsInsert<V>(k: string, v: V)
    ensures Lookup(Put(EmptyTable(), k, v, Some(-1)), k) == None
  {
    assert Touch([], k) == [k];
  }

  /** `delete` removes its key and nothing else; on a missing key it is a
      no-op. */
  lemma DeleteOnlyThatKey<V>(t: Table<V>, k: string)
    requires WellFormed(t)
    ensures k !in Drop(t, k).entries
    ensures forall x :: x != k ==> Lookup(Drop(t, k), x) == Lookup(t, x)
    ensures k !in t.entries ==> Drop(t, k) == t
  {
    if k !in t.entries {
      assert t.entries - {k} == t.entries;
    }
  }

  // ---------------------------------------------------------------------------
  // Invalidation timestamps, as a value
  // ---------------------------------------------------------------------------

  /** `get_tag_invalidation_time`'s answer. */
  function InvalidationTime(inv: map<string, int>, tag: Tag): Option<int>
  {
    var key := InvalidationKey(tag);
    if key in inv then Some(inv[key]) else None
  }

  /** A stamp is read back by its own tag, and leaves the time of every tag
      with a different key as it was. */
  lemma StampThenRead(inv: map<string, int>, tag: Tag, other: Tag, ts: int)
    ensures InvalidationTime(inv[InvalidationKey(tag) := ts], tag) == Some(ts)
    ensures InvalidationKey(other) != InvalidationKey(tag) ==>
      InvalidationTime(inv[InvalidationKey(tag) := ts], other) == InvalidationTime(inv, other)
  {
  }

  // ---------------------------------------------------------------------------
  // The adapter object
  // ---------------------------------------------------------------------------

  /** The adapter's whole observable state. */
  datatype AdapterState<V> = AdapterState(table: Table<CacheEntry<V>>, invalidations: map<string, int>)

  /** The adapter. */
  class Adapter<V> {
    var order: seq<string>
    var entries: map<string, CacheEntry<V>>
    var invalidations: map<string, int>
    const maxItems: Option<int>

    function Contents(): Table<CacheEntry<V>>
      reads this
    {
      Table(order, entries)
    }

    function State(): AdapterState<V>
      reads this
    {
      AdapterState(Contents(), invalidations)
    }

    /** The table is well formed, and a positive capacity is respected. */
    ghost predicate Valid()
      reads this
    {
      WellFormed(Contents()) && (maxItems.Some? && maxItems.value > 0 ==> |entries| <= maxItems.value)
    }

    constructor (maxItems: Option<int>)
      ensures Valid() && this.maxItems == maxItems
      ensures State() == AdapterState(EmptyTable(), map[])
    {
      order := [];
      entries := map[];
      invalidations := map[];
      this.maxItems := maxItems;
    }

    method Get(key: string) returns (entry: Option<CacheEntry<V>>)
      requires Valid()
      modifies this
      ensures Valid()
      ensures entry == Lookup(old(Contents()), key)
      ensures State() == AdapterState(AfterGet(old(Contents()), key), old(invalidations))
    {
      if key in entries {
        entry := Some(entries[key]);
        GetPresent(Contents(), key);
        order := Touch(order, key);
      } else {
        entry := None;
      }
    }

    method Set(key: string, entry: CacheEntry<V>)
      requires Valid()
      modifies this
      ensures Valid()
      ensures State() == AdapterState(Put(old(Contents()), key, entry, maxItems), old(invalidations))
    {
      ghost var before := Contents();
      PutWellFormed(before, key, entry, maxItems);
      if maxItems.Some? && maxItems.value > 0 {
        PutRespectsCapacity(before, key, entry, maxItems.value);
      }
      entries := entries[key := entry];
      order := Touch(order, key);
      if Bounded(maxItems) && |entries| > maxItems.value {
        var oldest := order[0];
        order := order[1..];
        entries := entries - {oldest};
      }
    }

    method Delete(key: string)
      requires Valid()
      modifies this
      ensures Valid()
      ensures State() == AdapterState(Drop(old(Contents()), key), old(invalidations))
    {
      DeleteWellFormed(Contents(), key);
      order := Remove(order, key);
      entries := entries - {key};
    }

    method GetTagInvalidationTime(tag: Tag) returns (time: Option<int>)
      ensures time == InvalidationTime(invalidations, tag)
      ensures time.Some? <==> InvalidationKey(tag) in invalidations
    {
      var key := InvalidationKey(tag);
      time := if key in invalidations then Some(invalidations[key]) else None;
    }

    method SetTagInvalidationTime(tag: Tag, timestamp: int)
      requires Valid()
      modifies this
      ensures Valid()
      ensures State() == AdapterState(old(Contents()), old(invalidations)[InvalidationKey(tag) := timestamp])
    {
      invalidations := invalidations[InvalidationKey(tag) := timestamp];
    }

    /** Empties both the entry table and the invalidation timestamps. */
    method Clear()
      requires Valid()
      modifies this
      ensures Valid()
      ensures State() == AdapterState(EmptyTable(), map[])
    {
      order := [];
      entries := map[];
      invalidations := map[];
    }
  }
}
