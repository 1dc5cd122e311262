/**
  The generic item cache of the second database: a map from type id to item
  record behind one reader/writer lock, served by a command dispatcher and saved
  when a `Save` signal arrives on the command-and-control channel.
*/
module Items {
  import opened Base
  import Table

  type TypeId = u32

  datatype ItemEntry = ItemEntry(
    categoryId: u32,
    groupId: u32,
    itemId: TypeId,
    volume: F32,
    name: string,
    description: string)

  /** The command vocabulary the dispatcher and the listener see. */
  datatype Command = Get | MGet | Set | MSet | Keys | Save

  /** A command together with the payload the dispatcher decodes for it. */
  datatype Request =
    | GetRequest(key: TypeId)
    | MGetRequest(keys: seq<TypeId>)
    | SetRequest(key: TypeId, value: ItemEntry)
    | MSetRequest(values: map<TypeId, ItemEntry>)
    | KeysRequest
    | SaveRequest

  /** What the dispatcher writes back on the connection. */
  datatype Reply =
    | EntryReply(entry: Option<ItemEntry>)
    | EntriesReply(entries: map<TypeId, ItemEntry>)
    | Ack(code: byte)
    | KeysReply(keys: seq<TypeId>)

  function CommandOf(req: Request): (c: Command)
  {
    match req
    case GetRequest(_) => Get
    case MGetRequest(_) => MGet
    case SetRequest(_, _) => Set
    case MSetRequest(_) => MSet
    case KeysRequest => Keys
    case SaveRequest => Save
  }

  /** Number of `Save` signals in what the listener observed. */
  function SaveSignals(observed: seq<Command>): (n: nat)
    ensures n <= |observed|
  {
    if observed == [] then 0
    else SaveSignals(observed[..|observed| - 1]) + (if observed[|observed| - 1].Save? then 1 else 0)
  }

  /** The cache's name on the wire. */
  function Name(): (name: string)
    ensures name == "items"
  {
    "items"
  }

  /** The snapshot file of the item cache. */
  function File(): (path: string)
    ensures path == "./db/items.cachem"
  {
    "./db/items.cachem"
  }

  class ItemCache {
    var cache: map<TypeId, ItemEntry>
    /** The snapshots the save hook has written, oldest first. */
    ghost var saved: seq<map<TypeId, ItemEntry>>

    /** `ItemCache::new`: an empty map. */
    constructor ()
      ensures cache == map[] && saved == []
    {
      cache := map[];
      saved := [];
    }

    /** A clone of the entry under `idx`, if any. */
    method Get(idx: TypeId) returns (r: Option<ItemEntry>)
      ensures r.Some? <==> idx in cache
      ensures r.Some? ==> r.value == cache[idx]
    {
      if idx in cache {
        r := Some(cache[idx]);
      } else {
        r := None;
      }
    }

    /** Stores `val` under `idx`, replacing any previous entry. */
    method Set(idx: TypeId, val: ItemEntry)
      modifies this
      ensures cache == old(cache)[idx := val]
      ensures saved == old(saved)
    {
      cache := cache[idx := val];
    }

    /** Every key of the map exactly once, in no particular order. */
    method Keys() returns (keys: seq<TypeId>)
      ensures Table.Enumerates(keys, cache.Keys)
      ensures |keys| == |cache|
    {
      keys := Table.CollectKeys(cache);
    }

    /** The entries of the requested keys that are present; missing keys are omitted. */
    method MGet(keys: seq<TypeId>) returns (found: map<TypeId, ItemEntry>)
      ensures found.Keys == cache.Keys * Table.Elements(keys)
      ensures forall k :: k in found ==> found[k] == cache[k]
    {
      found := map[];
      for i := 0 to |keys|
        invariant found.Keys == cache.Keys * Table.Elements(keys[..i])
        invariant forall k :: k in found ==> k in cache && found[k] == cache[k]
      {
        assert Table.Elements(keys[..i + 1]) == Table.Elements(keys[..i]) + {keys[i]};
        if keys[i] in cache {
          found := found[keys[i] := cache[keys[i]]];
        }
      }
      assert keys[..|keys|] == keys;
    }

    /** Stores every given entry. */
    method MSet(values: map<TypeId, ItemEntry>)
      modifies this
      ensures cache == old(cache) + values
      ensures saved == old(saved)
    {
      cache := cache + values;
    }

    /** The save hook's read: a clone of the whole map. */
    method Read() returns (data: map<TypeId, ItemEntry>)
      ensures data == cache
    {
      data := cache;
    }

    /** The save hook's write: replaces the whole map. */
    method Write(data: map<TypeId, ItemEntry>)
      modifies this
      ensures cache == data
      ensures saved == old(saved)
    {
      cache := data;
    }

    /** Writes the current map to the snapshot file. */
    method Save()
      modifies this
      ensures cache == old(cache)
      ensures saved == old(saved) + [cache]
    {
      var data := Read();
      saved := saved + [data];
    }

    /**
      Dispatches one decoded command. Set and MSet save after the update and
      acknowledge with the byte 0; any other command than the five served ones is
      logged and gets no reply.
    */
    method Handle(req: Request) returns (reply: Option<Reply>)
      modifies this
      ensures req.GetRequest? ==>
        cache == old(cache) && saved == old(saved) &&
        reply == Some(EntryReply(if req.key in cache then Some(cache[req.key]) else None))
      ensures req.MGetRequest? ==>
        cache == old(cache) && saved == old(saved) &&
        reply.Some? && reply.value.EntriesReply? &&
        reply.value.entries.Keys == cache.Keys * Table.Elements(req.keys) &&
        forall k :: k in reply.value.entries ==> reply.value.entries[k] == cache[k]
      ensures req.SetRequest? ==>
        cache == old(cache)[req.key := req.value] && saved == old(saved) + [cache] &&
        reply == Some(Ack(0))
      ensures req.MSetRequest? ==>
        cache == old(cache) + req.values && saved == old(saved) + [cache] &&
        reply == Some(Ack(0))
      ensures req.KeysRequest? ==>
        cache == old(cache) && saved == old(saved) &&
        reply.Some? && reply.value.KeysReply? && Table.Enumerates(reply.value.keys, cache.Keys)
      ensures CommandOf(req).Save? ==>
        reply == None && cache == old(cache) && saved == old(saved)
    {
      match req
      case GetRequest(key) =>
        var val := Get(key);
        reply := Some(EntryReply(val));
      case MGetRequest(keys) =>
        var vals := MGet(keys);
        reply := Some(EntriesReply(vals));
      case SetRequest(key, val) =>
        Set(key, val);
        Save();
        reply := Some(Ack(0));
      case MSetRequest(vals) =>
        MSet(vals);
        Save();
        reply := Some(Ack(0));
      case KeysRequest =>
        var keys := Keys();
        reply := Some(KeysReply(keys));
      case SaveRequest =>
        // logged as an invalid command
        reply := None;
    }

    /** One signal seen by the listener: only `Save` has an effect. */
    method OnSignal(cmd: Command)
      modifies this
      ensures cache == old(cache)
      ensures saved == if cmd.Save? then old(saved) + [cache] else old(saved)
    {
      if cmd.Save? {
        Save();
      } else {
        // logged as an invalid command on the channel
      }
    }

    /**
      The listener loop over the signals it observed: one save per `Save` signal,
      each writing the (unchanged) current map; every other signal is ignored.
    */
    method CncListener(observed: seq<Command>)
      modifies this
      ensures cache == old(cache)
      ensures |saved| == |old(saved)| + SaveSignals(observed)
      ensures saved[..|old(saved)|] == old(saved)
      ensures forall i :: |old(saved)| <= i < |saved| ==> saved[i] == cache
    {
      for i := 0 to |observed|
        invariant cache == old(cache)
        invariant |saved| == |old(saved)| + SaveSignals(observed[..i])
        invariant saved[..|old(saved)|] == old(saved)
        invariant forall j :: |old(saved)| <= j < |saved| ==> saved[j] == cache
      {
        assert observed[..i + 1][..i] == observed[..i];
        OnSignal(observed[i]);
      }
      assert observed[..|observed|] == observed;
    }
  }
}
