/**
  `LRUMap`, the bounded cache the decoders' lookups share. Despite its name it
  keeps no recency order: when a `put` finds the map at its bound, it empties
  the map first and then stores the new entry.
*/
module BoundedCache {
  import opened JavaText

  /** The most entries the map can hold: the configured bound, but never less than the one entry a `put` stores. */
  function Capacity(maxEntries: int): (c: nat)
    ensures c >= 1 && c >= maxEntries
  {
    if maxEntries >= 1 then maxEntries else 1
  }

  /** The map after `put(key, value)` on a map `m` with bound `maxEntries`. */
  function PutResult<K, V>(m: map<K, V>, maxEntries: int, key: K, value: V): (r: map<K, V>)
    ensures key in r && r[key] == value
    ensures |m| >= maxEntries ==> r.Keys == {key}
    ensures |m| < maxEntries ==> r.Keys == m.Keys + {key}
    ensures forall j :: j in r && j != key ==> j in m && r[j] == m[j]
  {
    if |m| >= maxEntries then map[key := value] else m[key := value]
  }

  /** A `put` never takes the map beyond its capacity. */
  lemma PutStaysBounded<K, V>(m: map<K, V>, maxEntries: int, key: K, value: V)
    requires |m| <= Capacity(maxEntries)
    ensures |PutResult(m, maxEntries, key, value)| <= Capacity(maxEntries)
  {
    var r := PutResult(m, maxEntries, key, value);
    if |m| >= maxEntries {
      assert r.Keys == {key};
      assert |r.Keys| == 1;
    } else {
      assert r.Keys == m.Keys + {key};
      assert |m.Keys + {key}| <= |m.Keys| + |{key}|;
    }
  }

  /** Storing a key already present below the bound replaces its value and keeps every other entry. */
  lemma PutExistingBelowBound<K, V>(m: map<K, V>, maxEntries: int, key: K, value: V)
    requires key in m && |m| < maxEntries
    ensures var r := PutResult(m, maxEntries, key, value);
      |r| == |m| && forall j :: j in m && j != key ==> j in r && r[j] == m[j]
  {
    var r := PutResult(m, maxEntries, key, value);
    assert r.Keys == m.Keys;
  }

  /** The map after a run of `put`s, the earliest first. */
  function PutAll<K, V>(m: map<K, V>, maxEntries: int, entries: seq<(K, V)>): map<K, V>
    decreases |entries|
  {
    if entries == [] then m
    else PutAll(PutResult(m, maxEntries, entries[0].0, entries[0].1), maxEntries, entries[1..])
  }

  /** Any run of `put`s keeps the map within its capacity. */
  lemma {:induction false} PutAllStaysBounded<K, V>(m: map<K, V>, maxEntries: int, entries: seq<(K, V)>)
    requires |m| <= Capacity(maxEntries)
    ensures |PutAll(m, maxEntries, entries)| <= Capacity(maxEntries)
    decreases |entries|
  {
    if entries != [] {
      PutStaysBounded(m, maxEntries, entries[0].0, entries[0].1);
      PutAllStaysBounded(PutResult(m, maxEntries, entries[0].0, entries[0].1), maxEntries, entries[1..]);
    }
  }

  /** After a run of `put`s the last entry stored is always there. */
  lemma {:induction false} PutAllKeepsLast<K, V>(m: map<K, V>, maxEntries: int, entries: seq<(K, V)>)
    requires entries != []
    ensures var last := entries[|entries| - 1];
      last.0 in PutAll(m, maxEntries, entries) && PutAll(m, maxEntries, entries)[last.0] == last.1
    decreases |entries|
  {
    if |entries| > 1 {
      PutAllKeepsLast(PutResult(m, maxEntries, entries[0].0, entries[0].1), maxEntries, entries[1..]);
    }
  }

  /** Running two batches of `put`s one after the other is running them as one batch. */
  lemma {:induction false} PutAllAppend<K, V>(m: map<K, V>, maxEntries: int, a: seq<(K, V)>, b: seq<(K, V)>)
    ensures PutAll(m, maxEntries, a + b) == PutAll(PutAll(m, maxEntries, a), maxEntries, b)
    decreases |a|
  {
    if a == [] {
      assert a + b == b;
    } else {
      assert (a + b)[0] == a[0];
      assert (a + b)[1..] == a[1..] + b;
      PutAllAppend(PutResult(m, maxEntries, a[0].0, a[0].1), maxEntries, a[1..], b);
    }
  }

  /** No key is stored twice in the run. */
  ghost predicate DistinctKeys<K, V>(entries: seq<(K, V)>)
  {
    forall i, j :: 0 <= i < j < |entries| ==> entries[i].0 != entries[j].0
  }

  /**
    As long as the bound is not reached, a run of `put`s of new, distinct keys
    clears nothing: every earlier entry stays, and the size grows by one per `put`.
  */
  lemma {:induction false} PutAllBelowBound<K, V>(m: map<K, V>, maxEntries: int, entries: seq<(K, V)>)
    requires |m| + |entries| <= maxEntries
    requires DistinctKeys(entries)
    requires forall i :: 0 <= i < |entries| ==> entries[i].0 !in m
    ensures |PutAll(m, maxEntries, entries)| == |m| + |entries|
    ensures m.Keys <= PutAll(m, maxEntries, entries).Keys
    ensures forall i :: 0 <= i < |entries| ==> entries[i].0 in PutAll(m, maxEntries, entries)
    decreases |entries|
  {
    if entries != [] {
      var k := entries[0].0;
      var next := PutResult(m, maxEntries, k, entries[0].1);
      assert next.Keys == m.Keys + {k};
      assert |next.Keys| == |m.Keys| + 1;
      var rest := entries[1..];
      assert forall i :: 0 <= i < |rest| ==> rest[i] == entries[i + 1];
      PutAllBelowBound(next, maxEntries, rest);
    }
  }

  /**
    The cache's documented behaviour: after `maxEntries + 1` distinct keys are
    stored into an empty map, it holds no more than `maxEntries` entries and the
    first key is gone, because the last `put` found the map full and cleared it.
  */
  lemma FillPastCapacityDropsFirst<K, V>(maxEntries: int, entries: seq<(K, V)>)
    requires maxEntries >= 1 && |entries| == maxEntries + 1 && DistinctKeys(entries)
    ensures var r := PutAll(map[], maxEntries, entries);
      |r| <= maxEntries && entries[0].0 !in r && r.Keys == {entries[maxEntries].0}
  {
    var a, b := entries[..maxEntries], entries[maxEntries..];
    assert a + b == entries;
    PutAllAppend(map[], maxEntries, a, b);
    PutAllBelowBound(map[], maxEntries, a);
    var full := PutAll(map[], maxEntries, a);
    assert b == [entries[maxEntries]] && b[1..] == [];
    var r := PutResult(full, maxEntries, entries[maxEntries].0, entries[maxEntries].1);
    assert PutAll(full, maxEntries, b) == PutAll(r, maxEntries, []);
    assert r.Keys == {entries[maxEntries].0};
    assert |r.Keys| == 1;
  }

  /**
    The map is not ordered by use: once it is at its bound, storing a new entry
    drops even the entry stored just before it.
  */
  lemma FullMapForgetsRecentEntry<K, V>(m: map<K, V>, maxEntries: int, k1: K, v1: V, k2: K, v2: V)
    requires k1 != k2 && |m| + 1 == maxEntries && k1 !in m
    ensures var r := PutResult(PutResult(m, maxEntries, k1, v1), maxEntries, k2, v2);
      k1 !in r && r.Keys == {k2}
  {
    var r1 := PutResult(m, maxEntries, k1, v1);
    assert r1.Keys == m.Keys + {k1};
    assert |r1.Keys| == |m.Keys| + 1;
  }

  /** `LRUMap<K,V>`: a concurrent map whose size is kept within a bound by clearing it. */
  class LRUMap<K(==), V> {
    const maxEntries: int
    var contents: map<K, V>

    /** The size never exceeds the capacity, and the bound is a Java `int`. */
    predicate Bounded()
      reads this
    {
      InIntRange(maxEntries) && |contents| <= Capacity(maxEntries)
    }

    /** `LRUMap(initialEntries, maxEntries)`: an empty map; the initial size is only a hint to the underlying table. */
    constructor(initialEntries: int, maxEntries: int)
      requires 0 <= initialEntries <= MaxInt && InIntRange(maxEntries)
      ensures this.maxEntries == maxEntries && contents == map[]
      ensures Bounded()
    {
      this.maxEntries := maxEntries;
      contents := map[];
    }

    /** `put(key, value)`: clear the map first if it is at its bound, then store the entry. */
    method Put(key: K, value: V)
      requires Bounded()
      modifies this
      ensures contents == PutResult(old(contents), maxEntries, key, value)
      ensures key in contents && contents[key] == value
      ensures |old(contents)| >= maxEntries ==> contents.Keys == {key}
      ensures Bounded()
    {
      if |contents| >= maxEntries {
        Clear();
      }
      contents := contents[key := value];
      PutStaysBounded(old(contents), maxEntries, key, value);
    }

    /** `get(key)`: the value stored for the key, if any. */
    method Get(key: K) returns (r: Option<V>)
      ensures r.Some? <==> key in contents
      ensures r.Some? ==> r.value == contents[key]
    {
      if key in contents {
        r := Some(contents[key]);
      } else {
        r := None;
      }
    }

    /** `clear()`: drop every entry. */
    method Clear()
      modifies this
      ensures contents == map[]
    {
      contents := map[];
    }

    /** `size()`: the number of entries, which stays within the capacity and so within an `int`. */
    method Size() returns (n: int)
      requires Bounded()
      ensures n == |contents|
      ensures n <= Capacity(maxEntries) && InIntRange(n)
    {
      n := |contents|;
    }
  }
}
