/**
  The item-material cache's batch insert: the same diff-aware merge as the station
  cache, keyed by `item_id`.
*/
module ItemMaterial {
  import opened Base
  import Table

  /**
    An item-material record. The struct is declared in a file that is not part of
    this model; only `item_id` matters to the merge, and the remaining fields are
    carried as one value compared for equality as a whole.
  */
  datatype ItemMaterialEntry = ItemMaterialEntry(itemId: u32, fields: seq<int>)

  datatype EmptyResponse = EmptyResponse

  function ItemKey(e: ItemMaterialEntry): (r: u32)
  {
    e.itemId
  }

  class ItemMaterialCache {
    var table: map<u32, ItemMaterialEntry>
    /** How many times a whole new map was assigned through the write lock. */
    ghost var replacements: nat

    constructor ()
      ensures table == map[] && replacements == 0
    {
      table := map[];
      replacements := 0;
    }

    /**
      Merges the batch into a clone of the table (popping from the back, so the
      earliest duplicate wins) and assigns the clone back when the change counter
      is positive, which it is for every non-empty batch.
    */
    method Insert(batch: seq<ItemMaterialEntry>) returns (r: Result<EmptyResponse, EmptyResponse>)
      modifies this
      ensures r == Ok(EmptyResponse)
      ensures table == Table.Merged(old(table), batch, ItemKey)
      ensures replacements == old(replacements) + (if batch == [] then 0 else 1)
      ensures table.Keys == old(table).Keys + Table.BatchKeys(batch, ItemKey)
      ensures forall k :: k in old(table) && k !in Table.BatchKeys(batch, ItemKey) ==> table[k] == old(table)[k]
    {
      ghost var before := table;
      var oldData, changes := Table.MergeBatch(table, batch, ItemKey);
      Table.PopCountBounds(table, batch, ItemKey);
      if changes > 0 {
        table := oldData;
        replacements := replacements + 1;
      }
      Table.MergedKeys(before, batch, ItemKey);
      forall k | k in before && k !in Table.BatchKeys(batch, ItemKey)
        ensures table[k] == before[k]
      {
        Table.MergedOutside(before, batch, ItemKey, k);
      }
      r := Ok(EmptyResponse);
    }
  }
}
