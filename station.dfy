/**
  The station cache: a table from `station_id` to station record, read by `fetch`,
  written by the diff-aware `insert`, and persisted as a flat snapshot.
*/
module Station {
  import opened Base
  import Table

  datatype StationEntry = StationEntry(stationId: u32, regionId: u32, systemId: u32, security: F32)

  /** The response of a lookup miss and of a completed insert. */
  datatype EmptyResponse = EmptyResponse

  /** The snapshot codec's error; `load` never reports one. */
  datatype CachemError = CachemError

  /** Capacity hint of the table (`StationCache::CAPACITY`). */
  const Capacity: nat := 6000

  /** The snapshot file of the station cache. */
  function File(): (path: string)
    ensures path == "./db/storage/stations.cachem"
  {
    "./db/storage/stations.cachem"
  }

  /** The key field a station record is stored under. */
  function StationKey(e: StationEntry): (r: u32)
  {
    e.stationId
  }

  class StationCache {
    /** The map behind the cache's reader/writer lock. */
    var table: map<u32, StationEntry>
    /** How many times a whole new map was assigned through the write lock. */
    ghost var replacements: nat

    /** `StationCache::default()`: an empty table. */
    constructor ()
      ensures table == map[] && replacements == 0
    {
      table := map[];
      replacements := 0;
    }

    /** Every entry sits under its own `station_id`. */
    ghost predicate Consistent()
      reads this
    {
      Table.KeyedBy(table, StationKey)
    }

    /** A copy of the record stored under `id`, or the empty response on a miss. */
    method Fetch(id: u32) returns (r: Result<StationEntry, EmptyResponse>)
      ensures r.Ok? <==> id in table
      ensures r.Ok? ==> r.value == table[id]
      ensures r.Err? ==> r.error == EmptyResponse
    {
      if id in table {
        r := Ok(table[id]);
      } else {
        r := Err(EmptyResponse);
      }
    }

    /**
      Merges a batch into a copy of the table and swaps the copy in when the change
      counter is positive. The counter grows for every popped record, so the swap
      happens exactly for a non-empty batch; the contents are the old table
      overridden by the batch, the earliest record winning among duplicates.
    */
    method Insert(batch: seq<StationEntry>) returns (r: Result<EmptyResponse, EmptyResponse>)
      modifies this
      ensures r == Ok(EmptyResponse)
      ensures table == Table.Merged(old(table), batch, StationKey)
      ensures replacements == old(replacements) + (if batch == [] then 0 else 1)
      ensures table.Keys == old(table).Keys + Table.BatchKeys(batch, StationKey)
      ensures forall k :: k in old(table) && k !in Table.BatchKeys(batch, StationKey) ==> table[k] == old(table)[k]
      ensures old(Consistent()) ==> Consistent()
    {
      ghost var before := table;
      var oldData, changes := Table.MergeBatch(table, batch, StationKey);
      Table.PopCountBounds(table, batch, StationKey);
      // the counter is positive for every non-empty batch, so the merged copy is written back
      if changes > 0 {
        table := oldData;
        replacements := replacements + 1;
      }
      if Table.KeyedBy(before, StationKey) {
        Table.MergedKeyedBy(before, batch, StationKey);
      }
      Table.MergedKeys(before, batch, StationKey);
      forall k | k in before && k !in Table.BatchKeys(batch, StationKey)
        ensures table[k] == before[k]
      {
        Table.MergedOutside(before, batch, StationKey, k);
      }
      r := Ok(EmptyResponse);
    }

    /**
      Replaces the table with the decoded snapshot keyed by `station_id` (the last
      duplicate winning); when decoding failed the table keeps its contents.
      `snapshot` is the outcome of the snapshot codec on the file's bytes.
    */
    method Load(snapshot: Option<seq<StationEntry>>) returns (r: Result<(), CachemError>)
      modifies this
      ensures r == Ok(())
      ensures snapshot.Some? ==> table == Table.Rebuild(snapshot.value, StationKey)
      ensures snapshot.Some? ==> replacements == old(replacements) + 1
      ensures snapshot.None? ==> table == old(table) && replacements == old(replacements)
      ensures snapshot.Some? ==> Consistent()
    {
      if snapshot.Some? {
        var loaded := Table.Index(snapshot.value, StationKey);
        table := loaded;
        replacements := replacements + 1;
        Table.RebuildKeys(snapshot.value, StationKey);
      }
      r := Ok(());
    }

    /**
      The sequence handed to the snapshot codec: one copy of every stored record,
      in the map's iteration order (`order` is that order of keys).
    */
    method Save() returns (entries: seq<StationEntry>, ghost order: seq<u32>)
      ensures Table.Enumerates(order, table.Keys)
      ensures |entries| == |order| == |table|
      ensures forall i :: 0 <= i < |entries| ==> entries[i] == table[order[i]]
      ensures Consistent() ==> Table.Rebuild(entries, StationKey) == table
    {
      entries, order := Table.Flatten(table);
      if Consistent() {
        Table.SaveLoadRoundTrip(table, StationKey, order, entries);
      }
    }
  }
}
