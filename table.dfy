/**
  The three loops every concrete cache repeats over its `HashMap`: the diff-aware
  batch insert, the snapshot load that re-keys a decoded record sequence, and the
  snapshot save that flattens the map into a sequence. Each is specified once here,
  generically over the key type K, the record type V and the function that reads a
  record's key field (`station_id`, `item_id`, ...).
*/
module Table {

  /** The keys carried by the records of a batch. */
  ghost function BatchKeys<K, V>(batch: seq<V>, key: V -> K): set<K>
  {
    set x | x in batch :: key(x)
  }

  /** Every record is stored under its own key field. */
  ghost predicate KeyedBy<K, V>(m: map<K, V>, key: V -> K)
  {
    forall k :: k in m ==> key(m[k]) == k
  }

  // ---------------------------------------------------------------------------
  // Batch insert (merge)
  // ---------------------------------------------------------------------------

  /**
    The table the insert loop leaves behind. The loop pops records off the back of
    the batch, so the last record is applied first; each popped record ends up
    stored under its key whether it was absent, unequal or already equal.
  */
  function Merged<K, V>(m: map<K, V>, batch: seq<V>, key: V -> K): (r: map<K, V>)
    ensures batch != [] ==> key(batch[0]) in r && r[key(batch[0])] == batch[0]
    decreases |batch|
  {
    if batch == [] then m
    else
      var x := batch[|batch| - 1];
      Merged(m[key(x) := x], batch[..|batch| - 1], key)
  }

  /**
    The value the `changes` counter reaches. For each popped record the
    `and_modify` closure adds one when the stored entry differs, and the argument
    of `or_insert` is evaluated for every record, adding one more.
  */
  function PopCount<K, V(==)>(m: map<K, V>, batch: seq<V>, key: V -> K): (r: nat)
    ensures |batch| <= r <= 2 * |batch|
    decreases |batch|
  {
    if batch == [] then 0
    else
      var x := batch[|batch| - 1];
      (if key(x) in m && m[key(x)] != x then 2 else 1)
        + PopCount(m[key(x) := x], batch[..|batch| - 1], key)
  }

  /** The merge loop: clone of the table in, merged table and change counter out. */
  method MergeBatch<K, V(==)>(current: map<K, V>, batch: seq<V>, key: V -> K)
    returns (merged: map<K, V>, changes: nat)
    ensures merged == Merged(current, batch, key)
    ensures changes == PopCount(current, batch, key)
  {
    merged := current;
    changes := 0;
    var data := batch;
    while data != []
      invariant Merged(merged, data, key) == Merged(current, batch, key)
      invariant changes + PopCount(merged, data, key) == PopCount(current, batch, key)
      decreases |data|
    {
      ghost var before := merged;
      var x := data[|data| - 1];
      data := data[..|data| - 1];
      var k := key(x);
      if k in merged && merged[k] != x {
        // and_modify: the stored entry differs from the incoming one
        changes := changes + 1;
        merged := merged[k := x];
      }
      // the argument of or_insert is evaluated before the call, for every record
      changes := changes + 1;
      if k !in merged {
        merged := merged[k := x];
      }
      assert merged == before[k := x];
    }
  }

  /** Keys present after the merge: the old keys together with the batch's keys. */
  lemma {:induction false} MergedKeys<K, V>(m: map<K, V>, batch: seq<V>, key: V -> K)
    ensures Merged(m, batch, key).Keys == m.Keys + BatchKeys(batch, key)
    decreases |batch|
  {
    if batch != [] {
      var x, rest := batch[|batch| - 1], batch[..|batch| - 1];
      MergedKeys(m[key(x) := x], rest, key);
      assert batch == rest + [x];
      assert BatchKeys(batch, key) == BatchKeys(rest, key) + {key(x)};
    }
  }

  /** A key no record of the batch carries keeps its old entry, or stays absent. */
  lemma {:induction false} MergedOutside<K, V>(m: map<K, V>, batch: seq<V>, key: V -> K, k: K)
    requires forall j :: 0 <= j < |batch| ==> key(batch[j]) != k
    ensures k in Merged(m, batch, key) <==> k in m
    ensures k in m ==> Merged(m, batch, key)[k] == m[k]
    decreases |batch|
  {
    if batch != [] {
      var x, rest := batch[|batch| - 1], batch[..|batch| - 1];
      assert key(batch[|batch| - 1]) != k;
      MergedOutside(m[key(x) := x], rest, key, k);
    }
  }

  /**
    Duplicates resolve to the earliest record: the record at the smallest index
    carrying a key is the one stored under that key, since it is popped last.
  */
  lemma {:induction false} MergedEarliest<K, V>(m: map<K, V>, batch: seq<V>, key: V -> K, i: nat)
    requires i < |batch|
    requires forall j :: 0 <= j < i ==> key(batch[j]) != key(batch[i])
    ensures key(batch[i]) in Merged(m, batch, key)
    ensures Merged(m, batch, key)[key(batch[i])] == batch[i]
    decreases |batch|
  {
    var x, rest := batch[|batch| - 1], batch[..|batch| - 1];
    if i == |batch| - 1 {
      MergedOutside(m[key(x) := x], rest, key, key(x));
    } else {
      assert rest[i] == batch[i];
      MergedEarliest(m[key(x) := x], rest, key, i);
    }
  }

  /** Re-submitting records equal to the stored ones leaves the table as it was. */
  lemma {:induction false} MergedIdempotent<K, V>(m: map<K, V>, batch: seq<V>, key: V -> K)
    requires forall j :: 0 <= j < |batch| ==> key(batch[j]) in m && m[key(batch[j])] == batch[j]
    ensures Merged(m, batch, key) == m
    decreases |batch|
  {
    if batch != [] {
      var x, rest := batch[|batch| - 1], batch[..|batch| - 1];
      assert key(batch[|batch| - 1]) in m;
      assert m[key(x) := x] == m;
      MergedIdempotent(m, rest, key);
    }
  }

  /** A table whose entries sit under their own key field stays so after a merge. */
  lemma {:induction false} MergedKeyedBy<K, V>(m: map<K, V>, batch: seq<V>, key: V -> K)
    requires KeyedBy(m, key)
    ensures KeyedBy(Merged(m, batch, key), key)
    decreases |batch|
  {
    if batch != [] {
      var x, rest := batch[|batch| - 1], batch[..|batch| - 1];
      MergedKeyedBy(m[key(x) := x], rest, key);
    }
  }

  /**
    Every popped record adds at least one to the counter, so the counter is
    positive exactly when the batch is non-empty: a corollary of the bounds in
    `PopCount`'s contract.
  */
  lemma PopCountBounds<K, V>(m: map<K, V>, batch: seq<V>, key: V -> K)
    ensures PopCount(m, batch, key) > 0 <==> batch != []
  {
  }

  // ---------------------------------------------------------------------------
  // Snapshot load
  // ---------------------------------------------------------------------------

  /** The map the load loop builds: records inserted in order, the last duplicate winning. */
  function Rebuild<K, V>(entries: seq<V>, key: V -> K): (r: map<K, V>)
    ensures |r| <= |entries|
    ensures entries != [] ==> |r| > 0
    decreases |entries|
  {
    if entries == [] then map[]
    else
      var n := |entries| - 1;
      Rebuild(entries[..n], key)[key(entries[n]) := entries[n]]
  }

  /** The load loop over a decoded snapshot. */
  method Index<K, V>(entries: seq<V>, key: V -> K) returns (m: map<K, V>)
    ensures m == Rebuild(entries, key)
  {
    m := map[];
    for i := 0 to |entries|
      invariant m == Rebuild(entries[..i], key)
    {
      assert entries[..i + 1][..i] == entries[..i];
      m := m[key(entries[i]) := entries[i]];
    }
    assert entries[..|entries|] == entries;
  }

  /** The rebuilt map has exactly the snapshot's distinct keys, each under its own id. */
  lemma {:induction false} RebuildKeys<K, V>(entries: seq<V>, key: V -> K)
    ensures Rebuild(entries, key).Keys == BatchKeys(entries, key)
    ensures |Rebuild(entries, key)| == |BatchKeys(entries, key)|
    ensures KeyedBy(Rebuild(entries, key), key)
    decreases |entries|
  {
    if entries != [] {
      var n := |entries| - 1;
      RebuildKeys(entries[..n], key);
      assert entries == entries[..n] + [entries[n]];
      assert BatchKeys(entries, key) == BatchKeys(entries[..n], key) + {key(entries[n])};
    }
  }

  /** Later duplicates overwrite earlier ones: the last record carrying a key is stored. */
  lemma {:induction false} RebuildLatest<K, V>(entries: seq<V>, key: V -> K, i: nat)
    requires i < |entries|
    requires forall j :: i < j < |entries| ==> key(entries[j]) != key(entries[i])
    ensures key(entries[i]) in Rebuild(entries, key)
    ensures Rebuild(entries, key)[key(entries[i])] == entries[i]
    decreases |entries|
  {
    var n := |entries| - 1;
    if i < n {
      assert entries[..n][i] == entries[i];
      RebuildLatest(entries[..n], key, i);
    }
  }

  // ---------------------------------------------------------------------------
  // Snapshot save
  // ---------------------------------------------------------------------------

  ghost predicate Distinct<T>(s: seq<T>)
  {
    forall i, j :: 0 <= i < j < |s| ==> s[i] != s[j]
  }

  ghost function Elements<T>(s: seq<T>): set<T>
  {
    set x | x in s
  }

  /** `order` lists every element of `keys` exactly once, in some order. */
  ghost predicate Enumerates<K>(order: seq<K>, keys: set<K>)
  {
    Distinct(order) && Elements(order) == keys
  }

  /** A sequence without repetitions has as many elements as its set. */
  lemma {:induction false} DistinctCardinality<T>(s: seq<T>)
    requires Distinct(s)
    ensures |Elements(s)| == |s|
    decreases |s|
  {
    if s != [] {
      var n := |s| - 1;
      DistinctCardinality(s[..n]);
      assert s == s[..n] + [s[n]];
      assert Elements(s) == Elements(s[..n]) + {s[n]};
      assert s[n] !in Elements(s[..n]);
    }
  }

  /**
    The save loop: walks the map in its (unspecified) iteration order and pushes a
    copy of every value. `order` is the key order the walk happened to take.
  */
  method Flatten<K, V>(m: map<K, V>) returns (entries: seq<V>, ghost order: seq<K>)
    ensures Enumerates(order, m.Keys)
    ensures |entries| == |order| == |m|
    ensures forall i :: 0 <= i < |entries| ==> entries[i] == m[order[i]]
  {
    entries, order := [], [];
    var rest := m.Keys;
    while rest != {}
      invariant Distinct(order)
      invariant Elements(order) !! rest && Elements(order) + rest == m.Keys
      invariant |entries| == |order|
      invariant forall i :: 0 <= i < |entries| ==> order[i] in m && entries[i] == m[order[i]]
      decreases rest
    {
      var k :| k in rest;
      entries, order := entries + [m[k]], order + [k];
      rest := rest - {k};
    }
    DistinctCardinality(order);
  }

  /** The key listing (`keys().collect()`): every key exactly once, no order promised. */
  method CollectKeys<K, V>(m: map<K, V>) returns (keys: seq<K>)
    ensures Enumerates(keys, m.Keys)
    ensures |keys| == |m|
  {
    keys := [];
    var rest := m.Keys;
    while rest != {}
      invariant Distinct(keys)
      invariant Elements(keys) !! rest && Elements(keys) + rest == m.Keys
      decreases rest
    {
      var k :| k in rest;
      keys := keys + [k];
      rest := rest - {k};
    }
    DistinctCardinality(keys);
  }

  /** Loading what was saved: the first `i` saved entries rebuild their keys' entries. */
  lemma {:induction false} RebuildSavedPrefix<K, V>(m: map<K, V>, key: V -> K, order: seq<K>, entries: seq<V>, i: nat)
    requires KeyedBy(m, key)
    requires Elements(order) <= m.Keys
    requires i <= |entries| == |order|
    requires forall j :: 0 <= j < |entries| ==> entries[j] == m[order[j]]
    ensures Rebuild(entries[..i], key) == map k | k in Elements(order[..i]) :: m[k]
    decreases i
  {
    if i > 0 {
      RebuildSavedPrefix(m, key, order, entries, i - 1);
      assert entries[..i][..i - 1] == entries[..i - 1];
      assert order[..i] == order[..i - 1] + [order[i - 1]];
      assert Elements(order[..i]) == Elements(order[..i - 1]) + {order[i - 1]};
      assert order[i - 1] in Elements(order);
      assert key(entries[i - 1]) == order[i - 1];
    }
  }

  /**
    The save/load round trip: when every entry sits under its own key field, loading
    the saved sequence rebuilds the same map, whatever order the save walked.
  */
  lemma SaveLoadRoundTrip<K, V>(m: map<K, V>, key: V -> K, order: seq<K>, entries: seq<V>)
    requires KeyedBy(m, key)
    requires Enumerates(order, m.Keys)
    requires |entries| == |order|
    requires forall i :: 0 <= i < |entries| ==> entries[i] == m[order[i]]
    ensures Rebuild(entries, key) == m
  {
    RebuildSavedPrefix(m, key, order, entries, |entries|);
    assert entries[..|entries|] == entries;
    assert order[..|order|] == order;
  }
}
