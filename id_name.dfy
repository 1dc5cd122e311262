/**
  Persistence of the id-to-name index: `load` builds a new cache from a decoded
  snapshot (falling back to an empty one), `save` flattens the table.
*/
module IdName {
  import opened Base
  import Table

  /**
    An id-to-name record. The struct is declared in a file that is not part of this
    model; the snapshot logic reads only `item_id`.
  */
  datatype IdNameEntry = IdNameEntry(itemId: u32, name: string)

  datatype CachemError = CachemError

  /** The snapshot file of the id-to-name cache. */
  function File(): (path: string)
    ensures path == "./db/storage/id_names.cachem"
  {
    "./db/storage/id_names.cachem"
  }

  function IdKey(e: IdNameEntry): (r: u32)
  {
    e.itemId
  }

  class IdNameCache {
    var table: map<u32, IdNameEntry>

    /** `IdNameCache::default()`. */
    constructor Default()
      ensures table == map[]
    {
      table := map[];
    }

    constructor FromMap(m: map<u32, IdNameEntry>)
      ensures table == m
    {
      table := m;
    }

    /**
      Builds the cache from the decoded snapshot, keyed by `item_id` with the last
      duplicate winning; when decoding failed the result is an empty cache. Never
      an error. `snapshot` is the outcome of the snapshot codec on the file's bytes.
    */
    static method Load(snapshot: Option<seq<IdNameEntry>>) returns (r: Result<IdNameCache, CachemError>)
      ensures r.Ok? && fresh(r.value)
      ensures snapshot.Some? ==> r.value.table == Table.Rebuild(snapshot.value, IdKey)
      ensures snapshot.Some? ==> |r.value.table| == |Table.BatchKeys(snapshot.value, IdKey)|
      ensures snapshot.None? ==> r.value.table == map[]
    {
      if snapshot.Some? {
        var loaded := Table.Index(snapshot.value, IdKey);
        Table.RebuildKeys(snapshot.value, IdKey);
        var cache := new IdNameCache.FromMap(loaded);
        r := Ok(cache);
      } else {
        var cache := new IdNameCache.Default();
        r := Ok(cache);
      }
    }

    /**
      The sequence handed to the snapshot codec: one copy of every stored record,
      in the map's iteration order (`order` is that order of keys). When every
      record sits under its own `item_id`, loading it rebuilds the same table.
    */
    method Save() returns (entries: seq<IdNameEntry>, ghost order: seq<u32>)
      ensures Table.Enumerates(order, table.Keys)
      ensures |entries| == |order| == |table|
      ensures forall i :: 0 <= i < |entries| ==> entries[i] == table[order[i]]
      ensures Table.KeyedBy(table, IdKey) ==> Table.Rebuild(entries, IdKey) == table
    {
      entries, order := Table.Flatten(table);
      if Table.KeyedBy(table, IdKey) {
        Table.SaveLoadRoundTrip(table, IdKey, order, entries);
      }
    }
  }
}
