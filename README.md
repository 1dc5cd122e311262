# Caph cache and ingestion core, in Dafny

This project models the core of the Caph backend: the in-memory caches of its
database server, the parser that pulls static game data out of a ZIP archive, and
the character service of the web server. The model covers the following parts.

- **Diff-aware batch insert.** `StationCache::insert` and `ItemMaterialCache::insert`
  clone the table and pop records off the back of the batch. Each record is stored
  under its key field. A change counter decides whether the clone is written back.
  The generic `Table.Merged` and `Table.PopCount` say what the loop leaves behind;
  `Table.MergeBatch` is that loop.
- **Snapshot load and save.** Loading re-keys a decoded record sequence, and the
  last duplicate wins (`Table.Rebuild`, `Table.Index`). Saving flattens the map in
  its iteration order (`Table.Flatten`). The round trip `load(save(m)) == m` holds
  when every record sits under its own id. On a decode failure the station cache
  keeps its contents, while the id-to-name cache loads as an empty cache.
- **The generic item cache of the second database** (`Items.ItemCache`). It covers
  `get`, `set`, `keys`, the save hooks `read` and `write`, the command dispatcher
  `handle` and the command-and-control listener. The listener reacts only to `Save`.
- **The static-data-export archive walker** (`SdeParser`). It reads PKZIP local
  file headers, described in section 4.3.7 of PKWARE's APPNOTE.TXT. Its parts are:
  - a specification `Walk` over the whole byte sequence, built from `ReadEntry`,
    which reads one header;
  - the imperative `Parse`, with a cursor and an inner loop over the requests;
  - lemmas about signatures, the compression check, the entry step, the selection
    of results, and entries built by the encoder `LocalHeader`.
- **The character service.** This covers the mapping of `lookup`, the entry
  `save_login` writes, and the refresh-and-retry shape shared by `name`, `portrait`,
  `assets` and `blueprints`. It also covers the grouping of assets by type id.

Integers are unbounded. The `u32`, `byte` and `F32` types are subset types of `int`,
and `f32` fields are kept as their bit patterns and compared only for equality.
The outcomes of the following become parameters of the operations:
- the snapshot codec;
- the inflater;
- the YAML decoder;
- the cache round trips of the character service;
- the game's API.

Three behaviours are modelled exactly as the code is written.

- **The change counter of the insert loop.** The argument of
  `or_insert({ changes += 1; x })` is evaluated before `or_insert` runs, so the
  counter grows for every popped record. A present but unequal key grows it by two.
  The table is therefore written back for every non-empty batch, and never for an
  empty one. The contents written back are the old table overridden by the batch
  either way.
- **The extra field of a local header.** Its length is read, but its bytes are not
  skipped. The next header is looked for right after the compressed data
  (`SdeParser.WalkStep`).
- **The first API call's errors.** When the first call fails with an error other
  than Unauthorized, the service reports `EveApiError::Unauthorized`
  (`Character.WithRefresh`).

## Model

| member | source | states |
|---|---|---|
| Table.Merged | db/src/station.rs:39-52 | The merged table: records applied from the back of the batch, each stored under its key. The batch's first record always ends up stored under its key. |
| Table.PopCount | db/src/station.rs:39-51 | The final counter: two per popped record whose key holds an unequal record, one per other record, so between the batch length and twice it. |
| Table.MergeBatch | db/src/station.rs:35-52 | The pop loop ends with the specified merged table, and its counter equals the specified count of popped records (two for a present unequal key, one otherwise). |
| Table.MergedKeys | db/src/station.rs:39-52 | After the merge, the keys are the old keys united with the batch's key fields. |
| Table.MergedOutside | db/src/station.rs:39-52 | A key that no batch record carries keeps its presence and its old record. |
| Table.MergedEarliest | db/src/station.rs:39-47 | A batch record with no earlier duplicate ends up stored under its key: among duplicates the earliest wins, because records are popped from the back. |
| Table.MergedIdempotent | db/src/station.rs:42-47 | Re-inserting records equal to the stored ones leaves the table equal to before. |
| Table.MergedKeyedBy | db/src/station.rs:40-41 | If every record sat under its own key field before the merge, the same holds after it. |
| Table.PopCountBounds | db/src/station.rs:48-57 | The counter is positive exactly for a non-empty batch, so the write-back happens iff the batch is non-empty. |
| Table.Rebuild | db/src/station/storage.rs:18-21 | The loaded map: records inserted in snapshot order, later duplicates overwriting earlier ones. It has at most one key per record, and at least one key for a non-empty snapshot. |
| Table.Index | db/src/station/storage.rs:18-21 | The load loop builds the specified re-keyed map, in which later duplicates overwrite earlier ones. |
| Table.RebuildKeys | db/src/id_name/storage.rs:18-22 | The loaded map's keys are exactly the decoded records' ids, its size is the number of distinct ids, and every record sits under its own id. |
| Table.RebuildLatest | db/src/station/storage.rs:19-21 | A record with no later duplicate is the one stored under its id. |
| Table.Flatten | db/src/station/storage.rs:33-36 | The save loop emits one record per map entry: the i-th record is the value under the i-th key of an enumeration of all keys without repetition. |
| Table.CollectKeys | db_v2/src/item.rs:122-130 | The key listing holds every key of the map exactly once, in no promised order. |
| Table.SaveLoadRoundTrip | db/src/station/storage.rs:17-36 | Loading a saved sequence rebuilds the saved map, whatever the iteration order, provided every record sits under its own id. |
| Station.File | db/src/station/storage.rs:10-12 | The station snapshot file is `./db/storage/stations.cachem`. |
| Station.StationCache.constructor | db/src/station.rs:8-9 | A default cache is empty. |
| Station.StationCache.Fetch | db/src/station.rs:20-26 | A fetch returns Ok with the stored record exactly when the id is present, and EmptyResponse otherwise; the table is not modified. |
| Station.StationCache.Insert | db/src/station.rs:34-59 | The table becomes the old table overridden by the batch (earliest duplicate wins). The key set becomes the union, other keys keep their records, and the map is replaced once iff the batch is non-empty. Records stay under their own `station_id`, and the result is always Ok. |
| Station.StationCache.Load | db/src/station/storage.rs:14-26 | On a decoded snapshot the table becomes the snapshot keyed by `station_id` (last duplicate wins). On a decode failure it is unchanged. The result is always `Ok(())`. |
| Station.StationCache.Save | db/src/station/storage.rs:28-42 | The saved sequence has exactly one copy of every stored record and leaves the table unchanged; loading it back rebuilds the table when records sit under their own ids. |
| ItemMaterial.ItemMaterialCache.Insert | db/src/item_material/insert.rs:11-36 | The table becomes the old table overridden by the batch, keyed by `item_id` (earliest duplicate wins). Other keys are unchanged, the map is replaced iff the batch is non-empty, and the result is always Ok. |
| IdName.File | db/src/id_name/storage.rs:11-13 | The id-to-name snapshot file is `./db/storage/id_names.cachem`. |
| IdName.IdNameCache.Default | db/src/id_name/storage.rs:26 | `IdNameCache::default()` holds an empty map. |
| IdName.IdNameCache.FromMap | db/src/id_name/storage.rs:24 | `IdNameCache(RwLock::new(map))` holds exactly the given map. |
| IdName.IdNameCache.Load | db/src/id_name/storage.rs:15-28 | A decoded snapshot gives a new cache keyed by `item_id` (last duplicate wins) whose size is the number of distinct ids. A decode failure gives a new empty cache. The result is never an error. |
| IdName.IdNameCache.Save | db/src/id_name/storage.rs:30-44 | The saved sequence has one copy of every stored record, as many as the map's size; loading it back rebuilds the map when records sit under their own `item_id`. |
| Items.Name | db_v2/src/item.rs:36-38 | The cache is named `items` on the wire. |
| Items.File | db_v2/src/item.rs:137-139 | The item snapshot file is `./db/items.cachem`. |
| Items.ItemCache.constructor | db_v2/src/item.rs:20-25 | A new cache holds an empty map. |
| Items.ItemCache.Get | db_v2/src/item.rs:94-101 | `get(k)` returns the entry under k when present and None otherwise, and it does not modify the cache. |
| Items.ItemCache.Set | db_v2/src/item.rs:109-115 | `set(k, v)` leaves the map as the old map with k bound to v, and every other key is unchanged. |
| Items.ItemCache.Keys | db_v2/src/item.rs:122-130 | Every key of the map is listed exactly once. |
| Items.ItemCache.MGet | db_v2/src/item.rs:47-51 | The reply holds exactly the requested keys that are present, each with its stored entry. |
| Items.ItemCache.MSet | db_v2/src/item.rs:59-64 | Every given entry is stored, overriding the old ones. |
| Items.ItemCache.Read | db_v2/src/item.rs:141-143 | The save hook's read returns a value equal to the current map. |
| Items.ItemCache.Write | db_v2/src/item.rs:145-147 | The save hook's write replaces the whole map with the given one. |
| Items.ItemCache.Save | db_v2/src/item.rs:137-147 | A save records the current map as the newest snapshot and leaves the map unchanged. |
| Items.ItemCache.Handle | db_v2/src/item.rs:40-72 | Get, MGet and Keys reply from the unchanged map. Set and MSet update the map, save the updated map and acknowledge with the byte 0. Any other command gets no reply and changes nothing. |
| Items.ItemCache.OnSignal | db_v2/src/item.rs:80-83 | A Save signal saves the current map, and any other signal changes nothing. |
| Items.ItemCache.CncListener | db_v2/src/item.rs:74-85 | Over a run of signals, the map is unchanged and one snapshot of it is added per Save signal, with no other effect. |
| SdeParser.Path | eve_sde_parser/src/parser.rs:98-107 | Every request has a fixed, non-empty ASCII path. |
| SdeParser.PathInjective | eve_sde_parser/src/parser.rs:98-107 | Distinct requests have distinct paths. |
| SdeParser.SignatureBytes | eve_sde_parser/src/parser.rs:28 | The big-endian signature read equals 0x504B0304 exactly for the bytes 50 4B 03 04. |
| SdeParser.DeflateFieldBytes | eve_sde_parser/src/parser.rs:34 | The big-endian compression read equals 0x0800 exactly for the bytes 08 00. |
| SdeParser.ContainsIff | eve_sde_parser/src/parser.rs:60 | The substring test holds exactly when the path occurs at some offset of the file name. |
| SdeParser.PrefixedPathSelected | eve_sde_parser/src/parser.rs:53-60 | A name made of a UTF-8 prefix followed by a request's path passes the UTF-8 check and is selected by that request. |
| SdeParser.Matches | eve_sde_parser/src/parser.rs:59-72 | One entry's results: in request order, one decoded document per request whose path occurs in the name. A name that no request selects yields none. |
| SdeParser.ReadEntry | eve_sde_parser/src/parser.rs:28-57 | Reading a complete entry moves the cursor forward by at least a header and stays within the input. |
| SdeParser.Walk | eve_sde_parser/src/parser.rs:25-76 | The parse from a position: entry after entry until a header without the signature, any error discarding the results. A successful walk has at least four bytes at its position, so running out of input is an error. |
| SdeParser.WalkNext | eve_sde_parser/src/parser.rs:28-73 | At a header that reads as an entry, the walk yields that entry's matches and continues at the position after it. |
| SdeParser.ReadHeader | eve_sde_parser/src/parser.rs:28-57 | The reads of one loop iteration yield what the header specification says: end, the first error met, or the name, data and next position. |
| SdeParser.CollectMatches | eve_sde_parser/src/parser.rs:59-72 | The inner loop pushes, in request order, one decoded document per request whose path occurs in the name. |
| SdeParser.Parse | eve_sde_parser/src/parser.rs:25-76 | The cursor loop returns exactly what the walk specification gives for the whole input. |
| SdeParser.StopsAtOtherSignature | eve_sde_parser/src/parser.rs:28 | Four bytes other than the signature end the walk successfully with no further results. |
| SdeParser.RejectsOtherCompression | eve_sde_parser/src/parser.rs:34-36 | A compression field other than 08 00 fails the whole parse with InvalidCompression, discarding earlier results. |
| SdeParser.RejectsNonUtf8Name | eve_sde_parser/src/parser.rs:53-54 | A file name that is not well-formed UTF-8 fails the whole parse with InvalidUtf8, discarding earlier results. |
| SdeParser.WalkStep | eve_sde_parser/src/parser.rs:28-73 | A complete entry contributes its matches, and the walk resumes exactly 30 + name length + compressed size bytes later, whatever the extra-field length; a later error discards them. |
| SdeParser.WalkOkNeedsForeignHeader | eve_sde_parser/src/parser.rs:28-56 | A successful parse needs four bytes that are not a signature somewhere at or after its position; input that ends without them is an error. |
| SdeParser.TruncatedEntryFails | eve_sde_parser/src/parser.rs:28-56 | A signed header cut short, in its fixed 30 bytes or in the name and compressed data its length fields announce, makes the parse fail. |
| SdeParser.MatchesSound | eve_sde_parser/src/parser.rs:59-72 | Every result of an entry comes from a request whose path occurs in the name, and it is that request's decoding of the entry's data; there are at most as many as requests. |
| SdeParser.MatchesComplete | eve_sde_parser/src/parser.rs:59-72 | Every request whose path occurs in the name yields a result for that entry. |
| SdeParser.Le32Value | eve_sde_parser/src/parser.rs:45 | The little-endian four-byte field reads back the value it encodes. |
| SdeParser.LocalHeaderFields | eve_sde_parser/src/parser.rs:28-51 | An encoded header passes the signature and compression checks, and its name and compressed-size fields read back their values. |
| SdeParser.ReadLocalEntry | eve_sde_parser/src/parser.rs:28-57 | Reading an encoded entry with a UTF-8 name gives back that name and data, with the cursor right after the entry. |
| SdeParser.WalkLocalEntry | eve_sde_parser/src/parser.rs:28-73 | At an encoded entry, the walk yields the matches on that entry's data and continues right after it. |
| Character.Lookup | server/src/services/character.rs:50-68 | A stored entry becomes `Some` of that entry, any other answer becomes `None`, and a failed request is passed on. |
| Character.LoginEntry | server/src/services/character.rs:23-45 | The written entry holds the new tokens. For a stored user it keeps the id, name and aliases; for an unknown user it has the login's id, an empty name and no aliases. |
| Character.LoginEntryIdempotent | server/src/services/character.rs:23-32 | Saving the same login again writes the same entry. |
| Character.LoginEntryKeepsCurrent | server/src/services/character.rs:23-32 | A stored entry that already holds the login's tokens is written back unchanged. |
| Character.SaveLogin | server/src/services/character.rs:17-48 | A failed lookup writes nothing and fails. Otherwise the entry for the stored or unknown user is written, and the write's result is returned. |
| Character.WithRefresh | server/src/services/character.rs:77-92 | A success is returned as is. Unauthorized triggers at most one refresh, one `save_login` write of the refreshed login (made exactly when the refresh and its lookup succeed, whether or not the write then fails), and one retry with the refreshed token, in that order. After the retry, the request answers with the retry's own value or error. A failed refresh, lookup or write is passed on, and the later calls are not made. Any other first error is reported as Unauthorized. |
| Character.RefreshOnce | server/src/services/character.rs:77-92 | When the retry is refused again, the request fails after exactly one refresh and one retry. |
| Character.RefreshKeepsProfile | server/src/services/character.rs:79-83 | The refresh's write keeps the stored user's name and aliases and records the refreshed tokens. |
| Character.Authorized | server/src/services/character.rs:70-95 | A failed lookup is passed on, a missing login fails with UserNotFound before any API call, and the first API call uses the stored access token. |
| Character.NoLoginNoData | server/src/services/character.rs:74 | No request succeeds without a stored login. |
| Character.Total | server/src/services/character.rs:149-154 | The summed quantity of one type id over the assets. It is non-negative when every quantity is. |
| Character.Grouped | server/src/services/character.rs:148-154 | The aggregation map: the first asset of a type is inserted as is, and later ones add their quantity to it. It has at most one key per asset, and at least one for a non-empty input. |
| Character.GroupedKeys | server/src/services/character.rs:148-154 | The grouped type ids are exactly the input's type ids. |
| Character.GroupedTotals | server/src/services/character.rs:149-154 | Each group sits under its own type id and carries the sum of the quantities of that type. |
| Character.GroupedFirst | server/src/services/character.rs:149-154 | The fields other than the quantity come from the first asset of each type. |
| Character.Accumulate | server/src/services/character.rs:148-154 | The accumulation loop builds exactly the grouped map: the first asset of each type, its quantity summed over that type. |
| Character.Aggregate | server/src/services/character.rs:148-160 | The output has each input type id exactly once and no other, each with the summed quantity, and it is the grouped map's values in its iteration order. |
| Character.Assets | server/src/services/character.rs:124-161 | An error of the request is passed on. A success is aggregated by type id: each id once, the ids are those of the fetched assets, and each asset is that id's group. |

## Left out

- The `cachem` crate is not part of this model. This covers its wire codec, `Protocol::request`, `ConnectionPool` and the default `mget`, `mset` and `save` methods. The codec's outcome is a parameter (`Option` of the decoded records). `mget`, `mset` and `save` are modelled as their names and uses describe:
  - `mget` collects the present keys;
  - `mset` stores every entry;
  - `save` records a snapshot of the current map in the ghost field `saved`.
- Pool acquisition failures in the character service are not modelled separately. They are errors of the lookup and write requests.
- Concurrency is not modelled: async execution and the reader/writer locks. Every operation is one sequential step, so the window between the read-clone and the write-back of `insert` is not modelled.
- The snapshot files, the TCP stream and its reads and writes are not modelled. The file paths are kept as functions returning them, and the write result of `save` is not modelled.
- Items.ItemCache.Handle: decoding the request and encoding the reply are left out, along with the panics of their `unwrap`s. The request arrives decoded and the reply is returned as a value.
- Items.Command: the command enumeration of `cachem` is not part of this model, so only the six commands the cache names are represented.
- Items.ItemCache.CncListener: the listener waits for changes on a watch channel. When the channel's sender is dropped, the `unwrap` of `changed()` panics and the listener stops. That panic is not modelled. The listener is modelled over the finite sequence of signals it observed, and the channel's coalescing of signals is left out.
- Log output is not modelled: the `log::error!` for an invalid command in `handle` and the `log::warn!` for an invalid command on the control channel.
- ItemMaterial.ItemMaterialCache.constructor: only allocates an empty cache for `Insert` to act on. The struct and its construction are declared outside the modelled files, so the constructor models no source line.
- The inflater and the YAML decoder are total functions passed as parameters. Their `unwrap` panics are left out.
- SdeParser.Parse: the `ByteReader` trait is not part of this model. Every read that runs past the end is modelled as `UnexpectedEof`.
- SdeParser.ReadEntry: it reads the version, flags, time, date, crc and uncompressed size fields, but their values are never used.
- HTTP, OAuth, `EveClient` and `retrieve_refresh_token` are not modelled. Only their outcomes are represented, as parameters of the character service.
- Character.Aggregate: it does not model overflow of the quantity sum, since integers are unbounded.
- Some declarations are not part of this model: `IdNameEntry`, `ItemMaterialEntry`, `UserEntry`, `FetchUserRes`, `CharacterAsset`, `EveApiError` and `EveServerError`. The model gives each only the fields its operations read, plus one equality-compared payload where needed. `FetchUserRes` other than `Ok` is a single variant, and API errors other than Unauthorized are a single variant.
- `f32` values are bit patterns compared for equality, which differs from `PartialEq` in two ways. First, NaN inequality is not modelled. Second, +0.0 and -0.0 are distinct here although `PartialEq` calls them equal. So re-inserting a station whose `security` differs only in the sign of a zero replaces the stored record in the model, while the source keeps it.
- `name`, `portrait` and `blueprints` return their API result unchanged. They are `Character.Authorized` applied to each call's result type.
- The planet-schematic and corporation services of the second parser hold only data declarations and macro invocations, and they have no logic of their own to model.
- `StationCache::CAPACITY` and `HashMap::with_capacity` are capacity hints with no observable effect. The constant is kept as `Station.Capacity`.
